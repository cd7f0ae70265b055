/**
 * The shell side of the telnet bridge (PwtsShell): the line editor that
 * turns keys from the decoder into terminal echo and, on ENTER, into a line
 * on the shell process's standard input; the command history it keeps; the
 * DCH sequence it uses to erase text; the choice of the system shell from
 * the operating system's name; and the joined command line.
 *
 * `Step` says what one key does to the editor's state. The input thread's
 * loop is the class `InputGobbler`: its fields are the loop's variables, and
 * each of its methods is proved to behave as `Step` (one key) and `Session`
 * (the whole loop) say.
 */
module PwtsShell {

  import opened Outcomes
  import opened Terminal
  import Text
  import ShellIo

  // ---------------------------------------------------------------------
  // Control sequences the editor writes (ECMA-48)

  /** DCH with count 1 (ECMA-48 section 8.3.26): delete the character at the cursor. */
  const DeleteChar: seq<int> := [ESC, LSB, Digit0 + 1, FinalP]

  /** ICH with count 1 (ECMA-48 section 8.3.64): insert one blank at the cursor. */
  const InsertChar: seq<int> := [ESC, LSB, Digit0 + 1, 64]

  /** `deleteChars(n)`: DCH with count `n`, written as ESC, `[`, the decimal text of `n`, `P`. */
  function DeleteChars(n: int): seq<int> {
    [ESC, LSB] + Text.DecimalText(n) + [FinalP]
  }

  /**
   * How a terminal reads a DCH sequence `ESC [ digits P`: the number of
   * characters it deletes (no digits or 0 meaning 1), or None when `t` is not
   * such a sequence.
   */
  function DchCount(t: seq<int>): (r: Option<int>)
    ensures r.Some? ==> r.value >= 1
  {
    if |t| >= 3 && t[0] == ESC && t[1] == LSB && t[|t| - 1] == FinalP
       && forall i :: 2 <= i < |t| - 1 ==> IsDigit(t[i])
    then
      var ds := t[2..|t| - 1];
      Text.ParseDecimalFromGrows(0, ds);
      var n := Text.ParseDecimal(ds);
      Some(if n == 0 then 1 else n)
    else None
  }

  /** A terminal reading `deleteChars(n)` deletes exactly `n` characters. */
  lemma DeleteCharsCount(n: int)
    requires n >= 1
    ensures DchCount(DeleteChars(n)) == Some(n)
  {
    var t := DeleteChars(n);
    assert t[2..|t| - 1] == Text.Digits(n);
    Text.ParseDigits(n);
  }

  // ---------------------------------------------------------------------
  // The terminal line the editor draws on

  /** The cells of the input line on the terminal and the column of the terminal's cursor. */
  datatype Line = Line(cells: seq<int>, col: int) {
    predicate Valid() { 0 <= col <= |cells| }
  }

  /** A character the terminal shows as itself (no C0 or C1 control, not DEL). */
  predicate Printable(c: int) { 32 <= c <= 126 || 160 <= c <= 255 }

  predicate AllPrintable(s: seq<int>) {
    forall i :: 0 <= i < |s| ==> Printable(s[i])
  }

  /**
   * What one operation does to the line: ICH inserts a blank at the cursor,
   * DCH deletes characters at the cursor, BS steps back, cursor motions move,
   * a new line starts an empty line, and any other text is printed over the
   * cells from the cursor on.
   */
  function Apply(l: Line, op: TermOp): (r: Line)
    requires l.Valid()
    ensures r.Valid()
  {
    match op
    case Write(t) =>
      if t == InsertChar then Line(l.cells[..l.col] + [Space] + l.cells[l.col..], l.col)
      else if DchCount(t).Some? then
        var end := if l.col + DchCount(t).value <= |l.cells| then l.col + DchCount(t).value else |l.cells|;
        Line(l.cells[..l.col] + l.cells[end..], l.col)
      else if t == [BS] then Line(l.cells, if l.col > 0 then l.col - 1 else 0)
      else
        var after := if l.col + |t| < |l.cells| then l.cells[l.col + |t|..] else [];
        Line(l.cells[..l.col] + t + after, l.col + |t|)
    case MoveRight(n) =>
      if n <= 0 then l
      else if l.col + n <= |l.cells| then Line(l.cells, l.col + n)
      else Line(l.cells + Repeat(Space as int, l.col + n - |l.cells|), l.col + n)
    case MoveLeft(n) => Line(l.cells, if 0 <= n <= l.col then l.col - n else if n < 0 then l.col else 0)
    case NewLine => Line([], 0)
    case SetCursor(_, _) => l
    case Bell => l
  }

  function ApplyAll(l: Line, ops: seq<TermOp>): (r: Line)
    requires l.Valid()
    ensures r.Valid()
    decreases |ops|
  {
    if ops == [] then l else ApplyAll(Apply(l, ops[0]), ops[1..])
  }

  lemma {:induction false} ApplyAllAppend(l: Line, a: seq<TermOp>, b: seq<TermOp>)
    requires l.Valid()
    ensures ApplyAll(l, a + b) == ApplyAll(ApplyAll(l, a), b)
    decreases |a|
  {
    if a != [] {
      assert (a + b)[0] == a[0] && (a + b)[1..] == a[1..] + b;
      ApplyAllAppend(Apply(l, a[0]), a[1..], b);
    } else {
      assert a + b == b;
    }
  }

  lemma ApplyAllOne(l: Line, op: TermOp)
    requires l.Valid()
    ensures ApplyAll(l, [op]) == Apply(l, op)
  {
    assert [op][0] == op && [op][1..] == [];
  }

  // ---------------------------------------------------------------------
  // The line editor

  /** The variables of the input loop: the line being edited, its cursor, the history and the history index. */
  datatype Editor = Editor(buffer: JString, cursor: int, lines: seq<JString>, lineNumber: int)

  /**
   * The cursor lies within the line; the history index is -1 exactly when
   * the history is empty and otherwise names an entry.
   */
  predicate Inv(e: Editor) {
    && 0 <= e.cursor <= |e.buffer|
    && -1 <= e.lineNumber < |e.lines|
    && (e.lineNumber >= 0 <==> |e.lines| > 0)
  }

  /** The state before the first key. */
  const Initial: Editor := Editor([], 0, [], -1)

  /** What one key does: the new state, what is echoed to the terminal, what goes to the shell's standard input. */
  datatype Effect = Effect(next: Editor, echo: seq<TermOp>, stdin: seq<int>)

  /** `n` pairs of BS and one-character DCH: erases the `n` characters left of the cursor. */
  function BackDeletes(n: nat): seq<TermOp> {
    if n == 0 then [] else BackDeletes(n - 1) + [Write([BS]), Write(DeleteChar)]
  }

  /** The erasure written before a history entry is shown: DCH for the text right of the cursor, then BS and DCH for each character left of it. */
  function EraseOps(len: int, cursor: nat): seq<TermOp> {
    (if len > cursor then [Write(DeleteChars(len - cursor))] else []) + BackDeletes(cursor)
  }

  /** The byte `OutputStream.write` sends for the character `(char) c`: its low eight bits. */
  function LowByte(c: int): int { ToChar(c) % 256 }

  /** Show history entry `lineNumber` in place of the line, with the cursor at its end. */
  function Recall(e: Editor, newNumber: int): (r: Effect)
    requires Inv(e) && 0 <= e.lineNumber < |e.lines|
  {
    var line := e.lines[e.lineNumber];
    Effect(Editor(line, |line|, e.lines, newNumber), EraseOps(|e.buffer|, e.cursor) + [Write(line)], [])
  }

  /** One pass of the input loop's key switch. */
  function Step(e: Editor, k: KeyCodes, c: int): (r: Effect)
    requires Inv(e) && k.Valid()
    ensures Inv(r.next)
    ensures r.next.lines == if c == k.enter then e.lines + [e.buffer] else e.lines
    ensures r.stdin == if c == k.enter then e.buffer + [LowByte(c)] else []
  {
    KeysDistinct(k);
    if c == k.delete then
      if e.cursor < |e.buffer| then
        Effect(e.(buffer := e.buffer[..e.cursor] + e.buffer[e.cursor + 1..]), [Write(DeleteChar)], [])
      else Effect(e, [], [])
    else if c == k.backspace then
      if e.cursor > 0 then
        Effect(e.(buffer := e.buffer[..e.cursor - 1] + e.buffer[e.cursor..], cursor := e.cursor - 1),
               [Write([BS]), Write(DeleteChar)], [])
      else Effect(e, [], [])
    else if c == k.left then
      if e.cursor > 0 then Effect(e.(cursor := e.cursor - 1), [Write([BS])], [])
      else Effect(e, [], [])
    else if c == k.right then
      if e.cursor < |e.buffer| then Effect(e.(cursor := e.cursor + 1), [MoveRight(1)], [])
      else Effect(e, [], [])
    else if c == k.up then
      if |e.lines| > 0 && e.lineNumber >= 0 then
        Recall(e, if e.lineNumber > 0 then e.lineNumber - 1 else e.lineNumber)
      else Effect(e, [], [])
    else if c == k.down then
      if e.lineNumber >= 0 && e.lineNumber < |e.lines| then
        Recall(e, if e.lineNumber + 1 < |e.lines| then e.lineNumber + 1 else e.lineNumber)
      else Effect(e, [], [])
    else if c == k.enter then
      Effect(Editor([], 0, e.lines + [e.buffer], |e.lines|), [NewLine], e.buffer + [LowByte(c)])
    else if c < 256 then
      Effect(e.(buffer := e.buffer[..e.cursor] + [ToChar(c)] + e.buffer[e.cursor..], cursor := e.cursor + 1),
             [Write(InsertChar), Write([ToChar(c)])], [])
    else Effect(e, [], [])
  }

  // ---------------------------------------------------------------------
  // Properties of the editor

  /** A typed character followed by BACKSPACE leaves the line and the cursor as they were. */
  lemma InsertThenBackspace(e: Editor, k: KeyCodes, c: int)
    requires Inv(e) && k.Valid()
    requires 0 <= c < 256 && c != k.enter
    ensures var e1 := Step(e, k, c).next;
      Step(e1, k, k.backspace).next == e
  {
    KeysDistinct(k);
    var e1 := Step(e, k, c).next;
    assert e1.buffer == e.buffer[..e.cursor] + [c] + e.buffer[e.cursor..];
    assert e1.buffer[..e1.cursor - 1] == e.buffer[..e.cursor];
    assert e1.buffer[e1.cursor..] == e.buffer[e.cursor..];
    assert e.buffer[..e.cursor] + e.buffer[e.cursor..] == e.buffer;
  }

  /**
   * DELETE removes the character at the cursor and BACKSPACE the one before
   * it, moving the cursor back; at the end (DELETE) or the start (BACKSPACE)
   * of the line they change nothing.
   */
  lemma ErasingKeys(e: Editor, k: KeyCodes)
    requires Inv(e) && k.Valid()
    ensures var r := Step(e, k, k.delete).next;
      && (e.cursor < |e.buffer| ==>
            r.cursor == e.cursor && |r.buffer| == |e.buffer| - 1
            && r.buffer[..e.cursor] == e.buffer[..e.cursor] && r.buffer[e.cursor..] == e.buffer[e.cursor + 1..])
      && (e.cursor == |e.buffer| ==> r == e)
    ensures var r := Step(e, k, k.backspace).next;
      && (e.cursor > 0 ==>
            r.cursor == e.cursor - 1 && |r.buffer| == |e.buffer| - 1
            && r.buffer[..r.cursor] == e.buffer[..r.cursor] && r.buffer[r.cursor..] == e.buffer[e.cursor..])
      && (e.cursor == 0 ==> r == e)
  {
    KeysDistinct(k);
    if e.cursor < |e.buffer| {
      var r := Step(e, k, k.delete).next;
      assert r.buffer == e.buffer[..e.cursor] + e.buffer[e.cursor + 1..];
      assert r.buffer[..e.cursor] == e.buffer[..e.cursor];
    }
    if e.cursor > 0 {
      var r := Step(e, k, k.backspace).next;
      assert r.buffer == e.buffer[..e.cursor - 1] + e.buffer[e.cursor..];
      assert r.buffer[..r.cursor] == e.buffer[..r.cursor];
    }
  }

  /** LEFT and RIGHT move the cursor by one inside the line and change nothing at its ends. */
  lemma MovingKeys(e: Editor, k: KeyCodes)
    requires Inv(e) && k.Valid()
    ensures Step(e, k, k.left).next == if e.cursor > 0 then e.(cursor := e.cursor - 1) else e
    ensures Step(e, k, k.right).next == if e.cursor < |e.buffer| then e.(cursor := e.cursor + 1) else e
  {
    KeysDistinct(k);
  }

  /**
   * A key below 256 (always insert mode) puts its character before the
   * cursor and advances the cursor; any other key above 256 changes nothing.
   */
  lemma TypedKeys(e: Editor, k: KeyCodes, c: int)
    requires Inv(e) && k.Valid() && c !in k.All()
    ensures var r := Step(e, k, c).next;
      && (c < 256 ==>
            r.cursor == e.cursor + 1 && |r.buffer| == |e.buffer| + 1 && r.buffer[e.cursor] == ToChar(c)
            && r.buffer[..e.cursor] == e.buffer[..e.cursor] && r.buffer[e.cursor + 1..] == e.buffer[e.cursor..]
            && r.lines == e.lines && r.lineNumber == e.lineNumber)
      && (c >= 256 ==> r == e)
  {
    assert k.All()[0] == k.up && k.All()[1] == k.down && k.All()[2] == k.right && k.All()[3] == k.left;
    assert k.All()[4] == k.enter && k.All()[6] == k.delete && k.All()[7] == k.backspace;
    if c < 256 {
      var r := Step(e, k, c).next;
      assert r.buffer == e.buffer[..e.cursor] + [ToChar(c)] + e.buffer[e.cursor..];
      assert r.buffer[..e.cursor] == e.buffer[..e.cursor];
      assert r.buffer[e.cursor + 1..] == e.buffer[e.cursor..];
    }
  }

  /**
   * The history keys: ENTER files the line as the newest entry and selects
   * it; UP and DOWN, given a history, show the selected entry with the cursor
   * at its end and step the index towards the oldest or the newest entry,
   * stopping there; without a history they change nothing.
   */
  lemma HistoryKeys(e: Editor, k: KeyCodes)
    requires Inv(e) && k.Valid()
    ensures Step(e, k, k.enter).next == Editor([], 0, e.lines + [e.buffer], |e.lines|)
    ensures var u := Step(e, k, k.up).next; var d := Step(e, k, k.down).next;
      if e.lines == [] then u == e && d == e
      else
        && u.buffer == e.lines[e.lineNumber] == d.buffer && u.cursor == |u.buffer| && d.cursor == |d.buffer|
        && u.lines == e.lines == d.lines
        && u.lineNumber == (if e.lineNumber > 0 then e.lineNumber - 1 else 0)
        && d.lineNumber == (if e.lineNumber < |e.lines| - 1 then e.lineNumber + 1 else |e.lines| - 1)
  {
    KeysDistinct(k);
  }

  /** ENTER followed by UP brings the line just entered back, with the cursor at its end. */
  lemma EnterThenUpRecalls(e: Editor, k: KeyCodes)
    requires Inv(e) && k.Valid()
    ensures var e2 := Step(Step(e, k, k.enter).next, k, k.up).next;
      e2.buffer == e.buffer && e2.cursor == |e.buffer| && e2.lines == e.lines + [e.buffer]
  {
    KeysDistinct(k);
  }

  /** The terminal reads the one-character DCH as a deletion of one character. */
  lemma DeleteCharCount()
    ensures DchCount(DeleteChar) == Some(1)
  {
    assert DeleteChar[2..3] == [Digit0 + 1];
    assert Text.ParseDecimalFrom(0, [Digit0 + 1]) == Text.ParseDecimalFrom(1, []);
  }

  /** BS followed by the one-character DCH removes the character left of the cursor and leaves the cursor on its cell. */
  lemma BackDelete(cells: seq<int>, col: int)
    requires 0 < col <= |cells|
    ensures ApplyAll(Line(cells, col), [Write([BS]), Write(DeleteChar)]) == Line(cells[..col - 1] + cells[col..], col - 1)
  {
    DeleteCharCount();
    var pair := [Write([BS]), Write(DeleteChar)];
    var l1 := Apply(Line(cells, col), Write([BS]));
    assert l1 == Line(cells, col - 1);
    assert DeleteChar != InsertChar by { assert DeleteChar[3] != InsertChar[3]; }
    assert Apply(l1, Write(DeleteChar)) == Line(cells[..col - 1] + cells[col..], col - 1);
    assert pair[0] == Write([BS]) && pair[1..] == [Write(DeleteChar)];
    assert ApplyAll(Line(cells, col), pair) == ApplyAll(l1, [Write(DeleteChar)]);
    assert [Write(DeleteChar)][1..] == [];
  }

  /** After BS and DCH pairs, one for each character left of the cursor, the line left of the cursor is gone. */
  lemma {:induction false} BackDeletesErase(s: seq<int>, n: nat)
    requires n <= |s|
    ensures ApplyAll(Line(s, |s|), BackDeletes(n)) == Line(s[..|s| - n], |s| - n)
    decreases n
  {
    if n == 0 {
      assert s[..|s|] == s;
    } else {
      BackDeletesErase(s, n - 1);
      ApplyAllAppend(Line(s, |s|), BackDeletes(n - 1), [Write([BS]), Write(DeleteChar)]);
      var t := s[..|s| - n + 1];
      BackDelete(t, |t|);
      assert t[..|t| - 1] + t[|t|..] == s[..|s| - n];
    }
  }

  /** DCH for the text right of the cursor deletes exactly that text. */
  lemma DeleteToEnd(s: seq<int>, cursor: nat)
    requires cursor < |s|
    ensures ApplyAll(Line(s, cursor), [Write(DeleteChars(|s| - cursor))]) == Line(s[..cursor], cursor)
  {
    var t := DeleteChars(|s| - cursor);
    DeleteCharsCount(|s| - cursor);
    assert t[|t| - 1] == FinalP;
    assert t != InsertChar;
    ApplyAllOne(Line(s, cursor), Write(t));
  }

  /** The erasure written before a history entry leaves the terminal line empty with the cursor at its start. */
  lemma EraseClearsLine(s: seq<int>, cursor: nat)
    requires cursor <= |s|
    ensures ApplyAll(Line(s, cursor), EraseOps(|s|, cursor)) == Line([], 0)
  {
    var head := if |s| > cursor then [Write(DeleteChars(|s| - cursor))] else [];
    ApplyAllAppend(Line(s, cursor), head, BackDeletes(cursor));
    if |s| > cursor {
      DeleteToEnd(s, cursor);
    } else {
      assert s[..cursor] == s;
    }
    BackDeletesErase(s[..cursor], cursor);
  }

  /** ICH followed by the character puts the character at the cursor and steps past it. */
  lemma EchoInsert(cells: seq<int>, col: int, ch: int)
    requires 0 <= col <= |cells| && Printable(ch)
    ensures ApplyAll(Line(cells, col), [Write(InsertChar), Write([ch])])
         == Line(cells[..col] + [ch] + cells[col..], col + 1)
  {
    var ops := [Write(InsertChar), Write([ch])];
    var l1 := Apply(Line(cells, col), Write(InsertChar));
    assert l1 == Line(cells[..col] + [Space] + cells[col..], col);
    assert ops[1..] == [Write([ch])] && [Write([ch])][1..] == [];
    assert ApplyAll(Line(cells, col), ops) == ApplyAll(l1, [Write([ch])]);
    assert l1.cells[..col] == cells[..col] && l1.cells[col + 1..] == cells[col..];
    assert [ch] != InsertChar && [ch] != [BS];
    assert Apply(l1, Write([ch])) == Line(cells[..col] + [ch] + cells[col..], col + 1);
    ApplyAllOne(l1, Write([ch]));
  }

  /** The one-character DCH removes the character under the cursor. */
  lemma EchoDelete(cells: seq<int>, col: int)
    requires 0 <= col < |cells|
    ensures ApplyAll(Line(cells, col), [Write(DeleteChar)]) == Line(cells[..col] + cells[col + 1..], col)
  {
    DeleteCharCount();
    assert DeleteChar != InsertChar by { assert DeleteChar[3] != InsertChar[3]; }
    assert [Write(DeleteChar)][1..] == [];
  }

  /** Erasing the line and writing a history entry leaves the entry on the line with the cursor at its end. */
  lemma EchoRecall(cells: seq<int>, col: nat, line: seq<int>)
    requires col <= |cells| && AllPrintable(line)
    ensures ApplyAll(Line(cells, col), EraseOps(|cells|, col) + [Write(line)]) == Line(line, |line|)
  {
    ApplyAllAppend(Line(cells, col), EraseOps(|cells|, col), [Write(line)]);
    EraseClearsLine(cells, col);
    if line != [] {
      assert line[0] != ESC && line != [BS];
    }
    assert line != InsertChar by {
      if |line| == 4 { assert line[0] != InsertChar[0]; }
    }
    assert Apply(Line([], 0), Write(line)) == Line(line, |line|);
    assert [Write(line)][1..] == [];
  }

  /**
   * The echo keeps the terminal in step with the editor: when the terminal
   * line shows the buffer with the cursor at `cursor`, it still does after
   * the key's echo. This holds as long as every character typed is printable.
   */
  lemma EchoTracksBuffer(e: Editor, k: KeyCodes, c: int)
    requires Inv(e) && k.Valid()
    requires AllPrintable(e.buffer) && forall j :: 0 <= j < |e.lines| ==> AllPrintable(e.lines[j])
    requires c >= 256 || c == k.enter || Printable(c)
    ensures var r := Step(e, k, c);
      && ApplyAll(Line(e.buffer, e.cursor), r.echo) == Line(r.next.buffer, r.next.cursor)
      && AllPrintable(r.next.buffer)
      && forall j :: 0 <= j < |r.next.lines| ==> AllPrintable(r.next.lines[j])
  {
    var r := Step(e, k, c);
    if c == k.enter {
      EchoEnter(e, k);
      assert forall j :: 0 <= j < |e.lines| ==> r.next.lines[j] == e.lines[j];
    } else if c == k.up || c == k.down {
      EchoHistory(e, k, c);
    } else {
      EchoEdit(e, k, c);
    }
  }

  /** ENTER's echo: a new, empty line. */
  lemma EchoEnter(e: Editor, k: KeyCodes)
    requires Inv(e) && k.Valid()
    ensures var r := Step(e, k, k.enter);
      ApplyAll(Line(e.buffer, e.cursor), r.echo) == Line(r.next.buffer, r.next.cursor) && r.next.buffer == []
  {
    KeysDistinct(k);
    var r := Step(e, k, k.enter);
    assert r.echo == [NewLine];
    assert r.echo[1..] == [];
  }

  /** UP and DOWN: the recalled entry replaces the line on the terminal. */
  lemma EchoHistory(e: Editor, k: KeyCodes, c: int)
    requires Inv(e) && k.Valid() && (c == k.up || c == k.down)
    requires AllPrintable(e.buffer) && forall j :: 0 <= j < |e.lines| ==> AllPrintable(e.lines[j])
    ensures var r := Step(e, k, c);
      ApplyAll(Line(e.buffer, e.cursor), r.echo) == Line(r.next.buffer, r.next.cursor) && AllPrintable(r.next.buffer)
  {
    KeysDistinct(k);
    var r := Step(e, k, c);
    if r.echo != [] {
      EchoRecall(e.buffer, e.cursor, r.next.buffer);
    }
  }

  /** The editing keys and typed characters: the echo redraws exactly the change. */
  lemma EchoEdit(e: Editor, k: KeyCodes, c: int)
    requires Inv(e) && k.Valid() && c != k.enter && c != k.up && c != k.down
    requires AllPrintable(e.buffer)
    requires c >= 256 || Printable(c)
    ensures var r := Step(e, k, c);
      ApplyAll(Line(e.buffer, e.cursor), r.echo) == Line(r.next.buffer, r.next.cursor) && AllPrintable(r.next.buffer)
  {
    if c == k.delete || c == k.backspace {
      EchoErase(e, k, c);
    } else if c == k.left || c == k.right {
      EchoMove(e, k, c);
    } else {
      EchoType(e, k, c);
    }
  }

  /** DELETE and BACKSPACE. */
  lemma EchoErase(e: Editor, k: KeyCodes, c: int)
    requires Inv(e) && k.Valid() && (c == k.delete || c == k.backspace)
    requires AllPrintable(e.buffer)
    ensures var r := Step(e, k, c);
      ApplyAll(Line(e.buffer, e.cursor), r.echo) == Line(r.next.buffer, r.next.cursor) && AllPrintable(r.next.buffer)
  {
    assert k.All()[6] == k.delete && k.All()[7] == k.backspace;
    if c == k.delete {
      if e.cursor < |e.buffer| {
        EchoDelete(e.buffer, e.cursor);
      }
    } else {
      assert c != k.delete by { KeysDistinct(k); }
      if e.cursor > 0 {
        BackDelete(e.buffer, e.cursor);
      }
    }
  }

  /** LEFT and RIGHT. */
  lemma EchoMove(e: Editor, k: KeyCodes, c: int)
    requires Inv(e) && k.Valid() && (c == k.left || c == k.right) && c != k.delete && c != k.backspace
    requires AllPrintable(e.buffer)
    ensures var r := Step(e, k, c);
      ApplyAll(Line(e.buffer, e.cursor), r.echo) == Line(r.next.buffer, r.next.cursor) && AllPrintable(r.next.buffer)
  {
    var r := Step(e, k, c);
    assert r.echo != [] ==> r.echo[1..] == [];
  }

  /** A typed character, or a key the switch ignores. */
  lemma EchoType(e: Editor, k: KeyCodes, c: int)
    requires Inv(e) && k.Valid() && c != k.enter && c != k.up && c != k.down
    requires c != k.delete && c != k.backspace && c != k.left && c != k.right
    requires AllPrintable(e.buffer)
    requires c >= 256 || Printable(c)
    ensures var r := Step(e, k, c);
      ApplyAll(Line(e.buffer, e.cursor), r.echo) == Line(r.next.buffer, r.next.cursor) && AllPrintable(r.next.buffer)
  {
    var r := Step(e, k, c);
    if c < 256 {
      EchoInsert(e.buffer, e.cursor, c);
      var b := r.next.buffer;
      assert forall i :: 0 <= i < |b| ==> b[i] == c || b[i] in e.buffer;
    }
  }

  /** Keys fed one after another to the editor, from state `e`. */
  function Replay(e: Editor, k: KeyCodes, keys: seq<int>): (r: Editor)
    requires Inv(e) && k.Valid()
    ensures Inv(r)
    decreases |keys|
  {
    if keys == [] then e else Replay(Step(e, k, keys[0]).next, k, keys[1..])
  }

  /** Plain characters: what the editor inserts rather than treats as a key. */
  predicate PlainText(k: KeyCodes, s: seq<int>) {
    forall i :: 0 <= i < |s| ==> 0 <= s[i] < 256 && s[i] != k.enter
  }

  /** ENTER moves the line into the history and starts an empty one. */
  lemma ReplayEnter(e: Editor, k: KeyCodes, rest: seq<int>)
    requires Inv(e) && k.Valid()
    ensures Replay(e, k, [k.enter] + rest) == Replay(Editor([], 0, e.lines + [e.buffer], |e.lines|), k, rest)
  {
    KeysDistinct(k);
    assert ([k.enter] + rest)[0] == k.enter && ([k.enter] + rest)[1..] == rest;
    assert Step(e, k, k.enter).next == Editor([], 0, e.lines + [e.buffer], |e.lines|);
  }

  /** Plain characters typed at the end of the line are appended to it. */
  lemma ReplayTyped(e: Editor, k: KeyCodes, s: seq<int>, rest: seq<int>)
    requires Inv(e) && k.Valid() && e.cursor == |e.buffer| && PlainText(k, s)
    ensures Replay(e, k, s + rest) == Replay(e.(buffer := e.buffer + s, cursor := |e.buffer| + |s|), k, rest)
  {
    ReplayAppend(e, k, s, rest);
    var t := TypeLine(e, k, s);
    assert Replay(e, k, s) == t == e.(buffer := e.buffer + s, cursor := |e.buffer| + |s|);
  }

  /** A line typed on an empty buffer and ended by ENTER joins the history, with the index on it. */
  lemma ReplayLineEntered(e: Editor, k: KeyCodes, x: JString, rest: seq<int>)
    requires Inv(e) && k.Valid() && e.buffer == [] && e.cursor == 0 && PlainText(k, x)
    ensures Replay(e, k, x + [k.enter] + rest) == Replay(Editor([], 0, e.lines + [x], |e.lines|), k, rest)
  {
    assert x + [k.enter] + rest == x + ([k.enter] + rest);
    ReplayTyped(e, k, x, [k.enter] + rest);
    var e1 := e.(buffer := e.buffer + x, cursor := |e.buffer| + |x|);
    assert e1.buffer == x;
    ReplayEnter(e1, k, rest);
  }

  /** Typing two lines, each ended by ENTER, leaves both in the history with the index on the newer one. */
  lemma TwoLinesEntered(k: KeyCodes, x: JString, y: JString)
    requires k.Valid() && PlainText(k, x) && PlainText(k, y)
    ensures Replay(Initial, k, x + [k.enter] + y + [k.enter]) == Editor([], 0, [x, y], 1)
  {
    assert x + [k.enter] + y + [k.enter] == x + [k.enter] + (y + [k.enter]);
    ReplayLineEntered(Initial, k, x, y + [k.enter]);
    var e2 := Editor([], 0, [x], 0);
    assert Initial.lines + [x] == [x];
    assert y + [k.enter] == y + [k.enter] + [];
    ReplayLineEntered(e2, k, y, []);
    assert e2.lines + [y] == [x, y];
  }

  /**
   * Walking a two-entry history with the index on the newer entry: UP shows
   * the newer entry, UP again the older one, and a third UP stays on it; DOWN
   * then first shows the entry at the index (the older one) and only the
   * second DOWN comes back to the newer one.
   */
  lemma HistoryWalk(k: KeyCodes, a: Editor, x: JString, y: JString)
    requires k.Valid() && Inv(a) && a.lines == [x, y] && a.lineNumber == 1
    ensures var u1 := Step(a, k, k.up).next;
      var u2 := Step(u1, k, k.up).next;
      var u3 := Step(u2, k, k.up).next;
      var d1 := Step(u3, k, k.down).next;
      var d2 := Step(d1, k, k.down).next;
      && u1.buffer == y && u2.buffer == x && u3.buffer == x && d1.buffer == x && d2.buffer == y
      && u1.lineNumber == 0 && u3.lineNumber == 0 && d1.lineNumber == 1 && d2.lineNumber == 1
  {
    KeysDistinct(k);
  }

  /** Replaying two runs of keys is replaying the first and then the second. */
  lemma {:induction false} ReplayAppend(e: Editor, k: KeyCodes, a: seq<int>, b: seq<int>)
    requires Inv(e) && k.Valid()
    ensures Replay(e, k, a + b) == Replay(Replay(e, k, a), k, b)
    decreases |a|
  {
    if a != [] {
      assert (a + b)[0] == a[0] && (a + b)[1..] == a[1..] + b;
      ReplayAppend(Step(e, k, a[0]).next, k, a[1..], b);
    } else {
      assert a + b == b;
    }
  }

  /** Typing plain characters at the end of the line appends them. */
  function TypeLine(e: Editor, k: KeyCodes, s: seq<int>): (r: Editor)
    requires Inv(e) && k.Valid() && e.cursor == |e.buffer|
    requires PlainText(k, s)
    ensures r == Replay(e, k, s)
    ensures r == e.(buffer := e.buffer + s, cursor := |e.buffer| + |s|)
    decreases |s|
  {
    KeysDistinct(k);
    if s == [] then e
    else
      var e1 := Step(e, k, s[0]).next;
      assert e1 == e.(buffer := e.buffer + [s[0]], cursor := |e.buffer| + 1);
      assert e.buffer + s == e1.buffer + s[1..];
      TypeLine(e1, k, s[1..])
  }

  // ---------------------------------------------------------------------
  // The whole input loop

  /** Where the input loop stops: the editor, everything echoed and sent, the input left, and the exception if one ended it. */
  datatype Outcome = Outcome(editor: Editor, echo: seq<TermOp>, stdin: seq<int>, rest: ShellIo.Input, fault: Option<Fault>)

  /**
   * The input thread: read a key, handle it, and go on while the connection
   * is active. An exception from the read ends the loop; a logout request
   * ends it after its key, because the connection's logout handler closes
   * the connection.
   */
  function Session(inp: ShellIo.Input, e: Editor, k: KeyCodes, translate: int -> int): Outcome
    requires k.Valid() && ShellIo.KeysPending(inp) && Inv(e)
    decreases |inp.wire|, |inp.pending|
  {
    var d := ShellIo.ReadKey(inp, k, translate);
    match d.key
    case Err(f) => Outcome(e, [], [], d.rest, Some(f))
    case Ok(c) =>
      ShellIo.ReadKeyProgress(inp, k, translate);
      var s := Step(e, k, c);
      if d.logout then Outcome(s.next, s.echo, s.stdin, d.rest, None)
      else
        var o := Session(d.rest, s.next, k, translate);
        Outcome(o.editor, s.echo + o.echo, s.stdin + o.stdin, o.rest, o.fault)
  }

  /** Each history entry followed by the byte of ENTER: what the shell receives for those lines. */
  function Submitted(lines: seq<JString>, enterByte: int): seq<int> {
    if lines == [] then [] else lines[0] + [enterByte] + Submitted(lines[1..], enterByte)
  }

  lemma {:induction false} SubmittedAppend(a: seq<JString>, b: seq<JString>, enterByte: int)
    ensures Submitted(a + b, enterByte) == Submitted(a, enterByte) + Submitted(b, enterByte)
    decreases |a|
  {
    if a != [] {
      assert (a + b)[0] == a[0] && (a + b)[1..] == a[1..] + b;
      SubmittedAppend(a[1..], b, enterByte);
    } else {
      assert a + b == b;
    }
  }

  lemma PrefixSplit<T>(l: seq<T>, p: seq<T>)
    requires |p| <= |l| && l[..|p|] == p
    ensures l == p + l[|p|..]
  {
  }

  lemma ConcatSlices<T>(a: seq<T>, b: seq<T>, c: seq<T>)
    ensures (a + b + c)[..|a|] == a && (a + b + c)[|a|..] == b + c
  {
  }

  /**
   * The shell process receives exactly the lines added to the history during
   * the loop, in order, each followed by the ENTER byte; nothing else is
   * written to its standard input.
   */
  lemma {:induction false} SessionSendsHistory(inp: ShellIo.Input, e: Editor, k: KeyCodes, translate: int -> int)
    requires k.Valid() && ShellIo.KeysPending(inp) && Inv(e)
    ensures var o := Session(inp, e, k, translate);
      && |e.lines| <= |o.editor.lines| && o.editor.lines[..|e.lines|] == e.lines
      && o.stdin == Submitted(o.editor.lines[|e.lines|..], LowByte(k.enter))
    decreases |inp.wire|, |inp.pending|
  {
    var o := Session(inp, e, k, translate);
    var d := ShellIo.ReadKey(inp, k, translate);
    if d.key.Err? {
      ConcatSlices(e.lines, [], []);
    } else {
      ShellIo.ReadKeyProgress(inp, k, translate);
      var c := d.key.value;
      var s := Step(e, k, c);
      var added := if c == k.enter then [e.buffer] else [];
      assert s.stdin == Submitted(added, LowByte(k.enter)) by {
        if c == k.enter {
          assert [e.buffer][1..] == [];
        }
      }
      assert s.next.lines == e.lines + added;
      if d.logout {
        ConcatSlices(e.lines, added, []);
        assert added + [] == added;
      } else {
        SessionSendsHistory(d.rest, s.next, k, translate);
        var o' := Session(d.rest, s.next, k, translate);
        assert o.editor == o'.editor && o.stdin == s.stdin + o'.stdin;
        var later := o'.editor.lines[|s.next.lines|..];
        PrefixSplit(o'.editor.lines, s.next.lines);
        ConcatSlices(e.lines, added, later);
        SubmittedAppend(added, later, LowByte(k.enter));
      }
    }
  }

  /** The input thread's loop variables, and what it has echoed and sent so far. */
  class InputGobbler {
    var inputBuffer: JString
    var cursor: int
    var lines: seq<JString>
    var lineNumber: int
    /** What the shell process has received on its standard input. */
    var stdin: seq<int>
    /** What the editor has written to the terminal. */
    var echo: seq<TermOp>

    function State(): Editor
      reads this
    {
      Editor(inputBuffer, cursor, lines, lineNumber)
    }

    constructor ()
      ensures State() == Initial && stdin == [] && echo == []
    {
      inputBuffer, cursor, lines, lineNumber := [], 0, [], -1;
      stdin, echo := [], [];
    }

    /** The erasure before a history entry is shown, with its loop over the characters left of the cursor. */
    method Erase()
      requires 0 <= cursor
      modifies this`echo
      ensures echo == old(echo) + EraseOps(|inputBuffer|, cursor)
    {
      if |inputBuffer| > cursor {
        echo := echo + [Write(DeleteChars(|inputBuffer| - cursor))];
      }
      ghost var start := echo;
      var i := 0;
      while i < cursor
        invariant 0 <= i <= cursor
        invariant echo == start + BackDeletes(i)
      {
        echo := echo + [Write([BS]), Write(DeleteChar)];
        i := i + 1;
      }
    }

    /**
     * The common part of the UP and DOWN cases: erase the line, show the
     * entry at the history index, then move the index to `newNumber`.
     */
    method ShowEntry(newNumber: int)
      requires Inv(State()) && 0 <= lineNumber < |lines|
      modifies this`inputBuffer, this`cursor, this`lineNumber, this`echo
      ensures State() == Recall(old(State()), newNumber).next
      ensures echo == old(echo) + Recall(old(State()), newNumber).echo
    {
      Erase();
      var line := lines[lineNumber];
      lineNumber := newNumber;
      echo := echo + [Write(line)];
      inputBuffer := line;
      cursor := |line|;
    }

    /** One pass of the key switch. */
    method HandleKey(k: KeyCodes, c: int)
      requires Inv(State()) && k.Valid()
      modifies this
      ensures State() == Step(old(State()), k, c).next
      ensures echo == old(echo) + Step(old(State()), k, c).echo
      ensures stdin == old(stdin) + Step(old(State()), k, c).stdin
    {
      if c == k.delete {
        if cursor < |inputBuffer| {
          inputBuffer := inputBuffer[..cursor] + inputBuffer[cursor + 1..];
          echo := echo + [Write(DeleteChar)];
        }
      } else if c == k.backspace {
        if cursor > 0 {
          inputBuffer := inputBuffer[..cursor - 1] + inputBuffer[cursor..];
          cursor := cursor - 1;
          echo := echo + [Write([BS]), Write(DeleteChar)];
        }
      } else if c == k.left {
        if cursor > 0 {
          cursor := cursor - 1;
          echo := echo + [Write([BS])];
        }
      } else if c == k.right {
        if cursor < |inputBuffer| {
          echo := echo + [MoveRight(1)];
          cursor := cursor + 1;
        }
      } else if c == k.up {
        if |lines| > 0 && lineNumber >= 0 {
          ShowEntry(if lineNumber > 0 then lineNumber - 1 else lineNumber);
        }
      } else if c == k.down {
        if lineNumber >= 0 && lineNumber < |lines| {
          ShowEntry(if lineNumber + 1 < |lines| then lineNumber + 1 else lineNumber);
        }
      } else if c == k.enter {
        echo := echo + [NewLine];
        stdin := stdin + inputBuffer + [LowByte(c)];
        cursor := 0;
        lines := lines + [inputBuffer];
        lineNumber := |lines| - 1;
        inputBuffer := [];
      } else if c < 256 {
        echo := echo + [Write(InsertChar), Write([ToChar(c)])];
        inputBuffer := inputBuffer[..cursor] + [ToChar(c)] + inputBuffer[cursor..];
        cursor := cursor + 1;
      }
    }

    /** One pass of the loop body: read a key and handle it; returns the read's exception, if any. */
    method Pass(io: ShellIo.ShellIo) returns (r: Result<int, Fault>, loggedOut: bool)
      requires io.Valid() && io.keys.Valid() && Inv(State())
      modifies this, io`bufferPosition, io`wire, io.buffer, io`logoutEvents
      ensures io.Valid() && Inv(State())
      ensures var d := ShellIo.ReadKey(old(io.State()), io.keys, io.translate);
        && r == d.key && io.State() == d.rest && loggedOut == (r.Ok? && d.logout)
        && (r.Err? ==> State() == old(State()) && echo == old(echo) && stdin == old(stdin))
        && (r.Ok? ==> var s := Step(old(State()), io.keys, r.value);
              State() == s.next && echo == old(echo) + s.echo && stdin == old(stdin) + s.stdin)
    {
      var events := io.logoutEvents;
      r := io.Read();
      loggedOut := false;
      if r.Ok? {
        HandleKey(io.keys, r.value);
        loggedOut := io.logoutEvents != events;
      }
    }

    /**
     * `InputStreamGobbler.run`: reads keys from `io` and handles them until a
     * read throws or a logout request closes the connection; returns the
     * exception that ended it, if any.
     */
    method Run(io: ShellIo.ShellIo) returns (fault: Option<Fault>)
      requires io.Valid() && io.keys.Valid() && ShellIo.KeysPending(io.State()) && Inv(State())
      modifies this, io`bufferPosition, io`wire, io.buffer, io`logoutEvents
      ensures io.Valid()
      ensures var o := Session(old(io.State()), old(State()), io.keys, io.translate);
        && State() == o.editor && echo == old(echo) + o.echo && stdin == old(stdin) + o.stdin
        && io.State() == o.rest && fault == o.fault
    {
      ghost var total := Session(io.State(), State(), io.keys, io.translate);
      ghost var echoed: seq<TermOp> := [];
      ghost var sent: seq<int> := [];
      while true
        invariant io.Valid() && ShellIo.KeysPending(io.State()) && Inv(State())
        invariant echo == old(echo) + echoed && stdin == old(stdin) + sent
        invariant var o := Session(io.State(), State(), io.keys, io.translate);
          total == Outcome(o.editor, echoed + o.echo, sent + o.stdin, o.rest, o.fault)
        decreases |io.wire|, io.bufferPosition
      {
        ghost var before := io.State();
        ghost var e := State();
        ShellIo.ReadKeyProgress(before, io.keys, io.translate);
        var r, loggedOut := Pass(io);
        if r.Err? {
          assert echoed + [] == echoed && sent + [] == sent;
          return Some(r.error);
        }
        ghost var s := Step(e, io.keys, r.value);
        ConcatAssoc(old(echo), echoed, s.echo);
        ConcatAssoc(old(stdin), sent, s.stdin);
        if loggedOut {
          echoed := echoed + s.echo;
          sent := sent + s.stdin;
          return None;
        }
        ghost var o := Session(io.State(), State(), io.keys, io.translate);
        ConcatAssoc(echoed, s.echo, o.echo);
        ConcatAssoc(sent, s.stdin, o.stdin);
        echoed := echoed + s.echo;
        sent := sent + s.stdin;
      }
    }
  }

  // ---------------------------------------------------------------------
  // Starting the system shell

  /**
   * The command line for the system shell, chosen by the operating system's
   * name in lower case: COMMAND.COM on Windows 9x, CMD.EXE on other Windows
   * versions, the Bourne shell elsewhere. Names and arguments are `string`,
   * as they only meet Dafny literals, never the terminal's code units.
   */
  function ShellCommand(osName: string): (r: seq<string>)
    ensures |r| >= 1
  {
    var os := Text.LowerAscii(osName);
    if Text.Contains(os, "windows") then
      if Text.Contains(os, "windows 9") then ["command.com", "/A/E:1900"]
      else ["cmd.exe", "/A/E:ON/F:ON/Q"]
    else ["/bin/sh"]
  }

  /** Each of the three command lines is chosen exactly for the names that select it. */
  lemma ShellCommandChoice(osName: string)
    ensures var os := Text.LowerAscii(osName);
      && (ShellCommand(osName) == ["command.com", "/A/E:1900"] <==> Text.Contains(os, "windows 9"))
      && (ShellCommand(osName) == ["cmd.exe", "/A/E:ON/F:ON/Q"] <==> Text.Contains(os, "windows") && !Text.Contains(os, "windows 9"))
      && (ShellCommand(osName) == ["/bin/sh"] <==> !Text.Contains(os, "windows"))
  {
    var os := Text.LowerAscii(osName);
    if Text.Contains(os, "windows 9") {
      Text.ContainsPrefix(os, "windows 9", "windows");
    }
  }

  /** The command line as one text, for the log: the arguments joined with single spaces. */
  method JoinArguments(args: seq<string>) returns (r: string)
    ensures r == Text.Join(args, ' ')
  {
    r := "";
    var i := 0;
    while i < |args|
      invariant 0 <= i <= |args|
      invariant r == Text.Join(args[..i], ' ')
    {
      if i > 0 {
        r := r + " ";
      }
      r := r + args[i];
      if i > 0 {
        Text.JoinSnoc(args[..i], ' ', args[i]);
      }
      assert args[..i + 1] == args[..i] + [args[i]];
      i := i + 1;
    }
    assert args[..|args|] == args;
  }

}
