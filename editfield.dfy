/**
 * The toolkit's Editfield: a one-line input field of bounded capacity over
 * a character buffer, with insert and overwrite modes, a password mask, a
 * "just backspace" mode and a repaint that blanks what a longer previous
 * value left on the screen.
 *
 * The field's buffer is the toolkit's CharBuffer, a Vector of characters
 * with a capacity: `ensureSpace(n)` throws BufferOverflowException when `n`
 * more characters would not fit, and the Vector's positional operations
 * throw an IndexOutOfBoundsException outside the buffer. The terminal is a
 * queue of keys still to be read and the trace of operations written to it.
 */
module Editfield {

  import opened Outcomes
  import opened Terminal

  /** Returned by an input filter for a key it has dealt with itself. */
  const InputHandled: int := -2000
  /** Returned by an input filter for a key it rejects. */
  const InputInvalid: int := -2001

  /**
   * The run loop's switch needs its case labels to differ: the terminal's key
   * codes, -1 and the two filter answers.
   */
  predicate SwitchKeys(k: KeyCodes) {
    k.Valid() && k.enter != -1 && k.enter != InputHandled && k.enter != InputInvalid
  }

  /** The settings the editing operations consult but never change. */
  datatype Settings = Settings(capacity: nat, insertMode: bool, password: bool, justBackspace: bool, position: Option<Point>)

  /** The buffer, the cursor and the size the buffer had before the last change (`m_LastSize`). */
  datatype Field = Field(buf: JString, cursor: int, lastSize: int)

  /** The cursor lies within the buffer, and the buffer and its previous size within the capacity. */
  predicate Valid(f: Field, capacity: nat) {
    0 <= f.cursor <= |f.buf| <= capacity && 0 <= f.lastSize <= capacity
  }

  /** What an operation leaves: the new field, what it wrote to the terminal, and the exception it threw. */
  datatype Effect = Effect(next: Field, ops: seq<TermOp>, fault: Option<Fault>)

  /** `e`, with the exception `caught` turned into a bell as the run loop's handlers do. */
  function Catch(e: Effect, caught: Fault): (r: Effect)
    ensures r.next == e.next
    ensures r.fault == if e.fault == Some(caught) then None else e.fault
  {
    if e.fault == Some(caught) then Effect(e.next, e.ops + [Bell], None) else e
  }

  // ---------------------------------------------------------------------
  // Repainting

  /** The buffer as shown: itself, or as many dots for a password field. */
  function Masked(buf: JString, password: bool): (r: JString)
    ensures |r| == |buf|
    ensures forall i :: 0 <= i < |r| ==> r[i] == if password then Dot else buf[i]
  {
    if password then Repeat(Dot, |buf|) else buf
  }

  /**
   * The text `draw` writes: the shown buffer, padded with spaces over the
   * cells a longer previous value occupied.
   */
  function DrawText(f: Field, password: bool): (r: JString)
    ensures |r| == if f.lastSize > |f.buf| then f.lastSize else |f.buf|
    ensures r[..|f.buf|] == Masked(f.buf, password)
    ensures forall i :: |f.buf| <= i < |r| ==> r[i] == Space
  {
    var diff := f.lastSize - |f.buf|;
    Masked(f.buf, password) + if diff > 0 then Repeat(Space, diff) else []
  }

  /** Moving the terminal cursor to the field's first column (`positionCursorAtBegin`). */
  function Begin(f: Field, s: Settings): TermOp {
    if s.position.Some? then SetCursor(s.position.value.row, s.position.value.col) else MoveLeft(f.cursor)
  }

  /** `draw`: go to the field's start, write the padded text, step back to the cursor. */
  function DrawOps(f: Field, s: Settings): seq<TermOp> {
    var out := DrawText(f, s.password);
    [Begin(f, s), Write(out)] + if f.cursor < |out| then [TermOp.MoveLeft(|out| - f.cursor)] else []
  }

  // ---------------------------------------------------------------------
  // Editing operations, as functions of the field

  function MoveRightEff(f: Field): (r: Effect)
    ensures r.fault.None? && r.next.buf == f.buf && r.next.lastSize == f.lastSize
    ensures r.next.cursor == if f.cursor < |f.buf| then f.cursor + 1 else f.cursor
    ensures r.ops == if f.cursor < |f.buf| then [TermOp.MoveRight(1)] else [Bell]
  {
    if f.cursor < |f.buf| then Effect(f.(cursor := f.cursor + 1), [TermOp.MoveRight(1)], None)
    else Effect(f, [Bell], None)
  }

  function MoveLeftEff(f: Field): (r: Effect)
    ensures r.fault.None? && r.next.buf == f.buf && r.next.lastSize == f.lastSize
    ensures r.next.cursor == if f.cursor > 0 then f.cursor - 1 else f.cursor
    ensures r.ops == if f.cursor > 0 then [TermOp.MoveLeft(1)] else [Bell]
  {
    if f.cursor > 0 then Effect(f.(cursor := f.cursor - 1), [TermOp.MoveLeft(1)], None)
    else Effect(f, [Bell], None)
  }

  /** `append(char)`: add `ch` at the end of the buffer and echo it (or a dot). */
  function AppendEff(f: Field, s: Settings, ch: CodeUnit): (r: Effect)
    ensures r.next.lastSize == |f.buf|
    ensures r.fault.None? <==> |f.buf| < s.capacity
    ensures r.fault.None? ==> r.next.buf == f.buf + [ch] && r.next.cursor == f.cursor + 1
    ensures r.fault.Some? ==> r.fault == Some(BufferOverflow) && r.next.buf == f.buf && r.next.cursor == f.cursor && r.ops == []
  {
    var f1 := f.(lastSize := |f.buf|);
    if 1 > s.capacity - |f.buf| then Effect(f1, [], Some(BufferOverflow))
    else Effect(f1.(buf := f.buf + [ch], cursor := f.cursor + 1), [Write([if s.password then Dot else ch])], None)
  }

  /** `insertCharAt`: insert `ch` at `pos`, keep the cursor on the same character, repaint. */
  function InsertEff(f: Field, s: Settings, pos: int, ch: CodeUnit): (r: Effect)
    ensures r.next.lastSize == |f.buf|
    ensures r.fault.None? <==> |f.buf| < s.capacity && 0 <= pos <= |f.buf|
    ensures r.fault.None? ==> r.next.buf == f.buf[..pos] + [ch] + f.buf[pos..]
    ensures r.fault.None? && 0 <= pos <= f.cursor <= |f.buf| ==> r.next.cursor == f.cursor + 1
    ensures r.fault.None? && f.cursor < pos ==> r.next.cursor == f.cursor
    ensures r.fault.Some? ==> r.next.buf == f.buf && r.next.cursor == f.cursor && r.ops == []
    ensures r.fault == Some(BufferOverflow) <==> |f.buf| >= s.capacity
  {
    var f1 := f.(lastSize := |f.buf|);
    if 1 > s.capacity - |f.buf| then Effect(f1, [], Some(BufferOverflow))
    else if pos < 0 || pos > |f.buf| then Effect(f1, [], Some(IndexOutOfBounds))
    else
      var f2 := f1.(buf := f.buf[..pos] + [ch] + f.buf[pos..]);
      var m := if f2.cursor >= pos then MoveRightEff(f2) else Effect(f2, [], None);
      Effect(m.next, m.ops + DrawOps(m.next, s), None)
  }

  /** `setCharAt`: overwrite the character at `pos`; the cursor stays, then repaint. */
  function SetCharEff(f: Field, s: Settings, pos: int, ch: CodeUnit): (r: Effect)
    ensures r.fault.None? <==> 0 <= pos < |f.buf|
    ensures r.fault.None? ==> r.next == f.(buf := f.buf[pos := ch])
    ensures r.fault.Some? ==> r == Effect(f, [], Some(IndexOutOfBounds))
  {
    if pos < 0 || pos >= |f.buf| then Effect(f, [], Some(IndexOutOfBounds))
    else
      var f1 := f.(buf := f.buf[pos := ch]);
      Effect(f1, DrawOps(f1, s), None)
  }

  /** `removeCharAt`: remove the character at `pos`, keep the cursor on the same character, repaint. */
  function RemoveEff(f: Field, s: Settings, pos: int): (r: Effect)
    ensures r.next.lastSize == |f.buf|
    ensures r.fault.None? <==> 0 <= pos < |f.buf|
    ensures r.fault.None? ==> r.next.buf == f.buf[..pos] + f.buf[pos + 1..]
    ensures r.fault.None? ==> r.next.cursor == if f.cursor > pos then f.cursor - 1 else f.cursor
    ensures r.fault.Some? ==> r.fault == Some(IndexOutOfBounds) && r.next.buf == f.buf && r.next.cursor == f.cursor && r.ops == []
  {
    var f1 := f.(lastSize := |f.buf|);
    if pos < 0 || pos >= |f.buf| then Effect(f1, [], Some(IndexOutOfBounds))
    else
      var f2 := f1.(buf := f.buf[..pos] + f.buf[pos + 1..]);
      var m := if f2.cursor > pos then MoveLeftEff(f2) else Effect(f2, [], None);
      Effect(m.next, m.ops + DrawOps(m.next, s), None)
  }

  /**
   * `handleCharInput`: a typed character is appended at the end of the
   * buffer, inserted before the cursor in insert mode, or written over the
   * character at the cursor in overwrite mode; a full buffer (or, in
   * overwrite mode, a cursor off the buffer) rings the bell.
   */
  function CharInputEff(f: Field, s: Settings, c: int): Effect {
    var ch := ToChar(c);
    if f.cursor == |f.buf| then Catch(AppendEff(f, s, ch), BufferOverflow)
    else if s.insertMode then Catch(InsertEff(f, s, f.cursor, ch), BufferOverflow)
    else Catch(SetCharEff(f, s, f.cursor, ch), IndexOutOfBounds)
  }

  /** The key the run loop acts on: DELETE read as BACKSPACE in "just backspace" mode, then the filter's answer. */
  function Filtered(s: Settings, k: KeyCodes, filter: Option<int -> int>, key: int): int {
    var key1 := if s.justBackspace && key == k.delete then k.backspace else key;
    if filter.Some? then filter.value(key1) else key1
  }

  /** `clear`: go to the start, blank the buffer's cells, go to the start again, empty the field. */
  function ClearOps(f: Field, s: Settings): seq<TermOp> {
    [Begin(f, s)] + Repeat(Write([Space]), |f.buf|) + [Begin(f, s)]
  }

  /**
   * `clear` with its second repositioning measured from where the blanks
   * leave the terminal cursor (the end of the old buffer) instead of from
   * the old cursor.
   */
  function ClearOpsToOrigin(f: Field, s: Settings): seq<TermOp> {
    var back := if s.position.Some? then SetCursor(s.position.value.row, s.position.value.col) else MoveLeft(|f.buf|);
    [Begin(f, s)] + Repeat(Write([Space]), |f.buf|) + [back]
  }

  /** `append(String)`: add `str` at the end of the buffer and echo it (or as many dots). */
  function AppendStringEff(f: Field, s: Settings, str: JString): (r: Effect)
    ensures r.next.lastSize == |f.buf|
    ensures r.fault.None? <==> |f.buf| + |str| <= s.capacity
    ensures r.fault.None? ==> r.next.buf == f.buf + str && r.next.cursor == f.cursor + |str|
    ensures r.fault.Some? ==> r.fault == Some(BufferOverflow) && r.next.buf == f.buf && r.next.cursor == f.cursor && r.ops == []
  {
    var f1 := f.(lastSize := |f.buf|);
    if |str| > s.capacity - |f.buf| then Effect(f1, [], Some(BufferOverflow))
    else Effect(f1.(buf := f.buf + str, cursor := f.cursor + |str|), [Write(Masked(str, s.password))], None)
  }

  /** `s` back to front. */
  function Reversed<T>(s: seq<T>): (r: seq<T>)
    ensures |r| == |s|
    ensures forall i :: 0 <= i < |s| ==> r[i] == s[|s| - 1 - i]
  {
    if s == [] then [] else [s[|s| - 1]] + Reversed(s[..|s| - 1])
  }

  /** Reversing one more character of `s` puts that character in front. */
  lemma ReversedPrefix<T>(s: seq<T>, i: nat)
    requires i < |s|
    ensures Reversed(s[..i + 1]) == [s[i]] + Reversed(s[..i])
  {
    assert s[..i + 1][..i] == s[..i];
  }

  /** Inserting `x` between `a` and `m + b` puts it at the front of the middle part. */
  lemma SpliceFront<T>(a: seq<T>, m: seq<T>, b: seq<T>, x: T)
    ensures (a + m + b)[..|a|] + [x] + (a + m + b)[|a|..] == a + ([x] + m) + b
  {
    assert (a + m + b)[..|a|] == a;
    assert (a + m + b)[|a|..] == m + b;
  }

  /** Inserting `x` between `a + m` and `b` puts it at the back of the middle part. */
  lemma SpliceBack<T>(a: seq<T>, m: seq<T>, b: seq<T>, x: T)
    ensures (a + m + b)[..|a| + |m|] + [x] + (a + m + b)[|a| + |m|..] == a + (m + [x]) + b
  {
    assert (a + m + b)[..|a| + |m|] == a + m;
    assert (a + m + b)[|a| + |m|..] == b;
  }

  /**
   * `insertStringAt` as written: each character of `str` is inserted at
   * the same `pos`, so the later ones land before the earlier ones; the
   * cursor advances by the length of `str` wherever `pos` lies.
   */
  function InsertStringEff(f: Field, s: Settings, pos: int, str: JString): Effect {
    var f1 := f.(lastSize := |f.buf|);
    if |str| > s.capacity - |f.buf| then Effect(f1, [], Some(BufferOverflow))
    else if str == [] then Effect(f1, DrawOps(f1, s), None)
    else if pos < 0 || pos > |f.buf| then Effect(f1, [], Some(IndexOutOfBounds))
    else
      var f2 := Field(f.buf[..pos] + Reversed(str) + f.buf[pos..], f.cursor + |str|, |f.buf|);
      Effect(f2, DrawOps(f2, s), None)
  }

  /** `insertStringAt` with the i-th character inserted at `pos + i`, keeping `str` in order. */
  function InsertStringInOrderEff(f: Field, s: Settings, pos: int, str: JString): (r: Effect)
    ensures r.fault.None? && str != [] ==>
      && 0 <= pos <= |f.buf| && |r.next.buf| == |f.buf| + |str|
      && r.next.buf[..pos] == f.buf[..pos]
      && r.next.buf[pos..pos + |str|] == str
      && r.next.buf[pos + |str|..] == f.buf[pos..]
  {
    var f1 := f.(lastSize := |f.buf|);
    if |str| > s.capacity - |f.buf| then Effect(f1, [], Some(BufferOverflow))
    else if str == [] then Effect(f1, DrawOps(f1, s), None)
    else if pos < 0 || pos > |f.buf| then Effect(f1, [], Some(IndexOutOfBounds))
    else
      var f2 := Field(f.buf[..pos] + str + f.buf[pos..], f.cursor + |str|, |f.buf|);
      assert f2.buf[pos..pos + |str|] == str;
      assert f2.buf[pos + |str|..] == f.buf[pos..];
      Effect(f2, DrawOps(f2, s), None)
  }

  /** The run loop's switch on one (filtered) key. */
  function KeyEff(f: Field, s: Settings, k: KeyCodes, validator: Option<JString -> bool>, key: int): Effect
    requires SwitchKeys(k)
  {
    if key == -1 then Effect(f.(buf := []), [], None)
    else if key == InputHandled then Effect(f, [], None)
    else if key == InputInvalid then Effect(f, [Bell], None)
    else if key == k.left then MoveLeftEff(f)
    else if key == k.right then MoveRightEff(f)
    else if key == k.up || key == k.down then Effect(f, [Bell], None)
    else if key == k.enter then
      if validator.None? || validator.value(f.buf) then Effect(f, [], None) else Effect(f, [Bell], None)
    else if key == k.backspace then Catch(RemoveEff(f, s, f.cursor - 1), IndexOutOfBounds)
    else if key == k.delete then Catch(RemoveEff(f, s, f.cursor), IndexOutOfBounds)
    else if key == k.tabulator then Effect(f, [], None)
    else CharInputEff(f, s, key)
  }

  /** Whether the run loop ends after `key`: -1, TAB, or an ENTER the validator (if any) accepts. */
  predicate Ends(f: Field, k: KeyCodes, validator: Option<JString -> bool>, key: int) {
    key == -1 || key == k.tabulator || (key == k.enter && (validator.None? || validator.value(f.buf)))
  }

  /** What `run` does after its first repaint, on the keys still to be read. */
  datatype Outcome = Outcome(field: Field, ops: seq<TermOp>, rest: seq<int>, fault: Option<Fault>)

  /**
   * The run loop over `keys`: each key is filtered and handled; the loop
   * ends after a key that `Ends` it, at the first exception, or when the
   * connection has no more keys (the read throws).
   */
  function Session(f: Field, s: Settings, k: KeyCodes, filter: Option<int -> int>,
                   validator: Option<JString -> bool>, keys: seq<int>): Outcome
    requires SwitchKeys(k)
    decreases |keys|
  {
    if keys == [] then Outcome(f, [], [], Some(Closed))
    else
      var key := Filtered(s, k, filter, keys[0]);
      var e := KeyEff(f, s, k, validator, key);
      if e.fault.Some? || Ends(f, k, validator, key) then Outcome(e.next, e.ops, keys[1..], e.fault)
      else
        var o := Session(e.next, s, k, filter, validator, keys[1..]);
        Outcome(o.field, e.ops + o.ops, o.rest, o.fault)
  }

  // ---------------------------------------------------------------------
  // The Editfield component

  class Editfield {
    const capacity: nat
    const keys: KeyCodes
    var buf: JString
    var cursor: int
    var insertMode: bool
    var lastSize: int
    var password: bool
    var justBackspace: bool
    var position: Option<Point>
    var filter: Option<int -> int>
    var validator: Option<JString -> bool>
    /** The keys the terminal will deliver, in order. */
    var input: seq<int>
    /** Everything written to the terminal so far. */
    var screen: seq<TermOp>

    function State(): Field
      reads this
    {
      Field(buf, cursor, lastSize)
    }

    function Config(): Settings
      reads this
    {
      Settings(capacity, insertMode, password, justBackspace, position)
    }

    /** A field of `length` characters, empty, in insert mode, with no filter or validator. */
    constructor (length: nat, keys: KeyCodes, input: seq<int>)
      ensures State() == Field([], 0, 0) && Valid(State(), capacity)
      ensures Config() == Settings(length, true, false, false, None)
      ensures filter.None? && validator.None? && this.keys == keys && this.input == input && screen == []
    {
      capacity := length;
      this.keys := keys;
      buf := [];
      cursor := 0;
      insertMode := true;
      lastSize := 0;
      password := false;
      justBackspace := false;
      position := None;
      filter := None;
      validator := None;
      this.input := input;
      screen := [];
    }

    /** `setJustBackspace`: switches the mode on whatever its argument. */
    method SetJustBackspace(b: bool)
      modifies this`justBackspace
      ensures justBackspace
    {
      justBackspace := true;
    }

    /** `setJustBackspace` storing its argument, so that the mode can be switched off again. */
    method SetJustBackspaceTo(b: bool)
      modifies this`justBackspace
      ensures justBackspace == b
    {
      justBackspace := b;
    }

    method SetInsertMode(b: bool)
      modifies this`insertMode
      ensures insertMode == b
    {
      insertMode := b;
    }

    method SetPasswordField(b: bool)
      modifies this`password
      ensures password == b
    {
      password := b;
    }

    method RegisterInputFilter(f: Option<int -> int>)
      modifies this`filter
      ensures filter == f
    {
      filter := f;
    }

    method RegisterInputValidator(v: Option<JString -> bool>)
      modifies this`validator
      ensures validator == v
    {
      validator := v;
    }

    method PositionCursorAtBegin()
      modifies this`screen
      ensures screen == old(screen) + [Begin(State(), Config())]
    {
      if position.None? {
        screen := screen + [TermOp.MoveLeft(cursor)];
      } else {
        screen := screen + [SetCursor(position.value.row, position.value.col)];
      }
    }

    /** `draw`: builds the masked and padded text with two loops, then writes it. */
    method Draw()
      modifies this`screen
      ensures screen == old(screen) + DrawOps(State(), Config())
    {
      var output := buf;
      if password {
        var dots: JString := [];
        var n := 0;
        while n < |buf|
          invariant 0 <= n <= |buf| && dots == Repeat(Dot, n)
        {
          dots := dots + [Dot];
          n := n + 1;
        }
        output := dots;
      }
      var diff := lastSize - |buf|;
      if diff > 0 {
        var padded := output;
        var i := 0;
        while i < diff
          invariant 0 <= i <= diff && padded == output + Repeat(Space, i)
        {
          padded := padded + [Space];
          i := i + 1;
        }
        output := padded;
      }
      assert output == DrawText(State(), password);
      ghost var head := [Begin(State(), Config()), Write(output)];
      PositionCursorAtBegin();
      screen := screen + [Write(output)];
      assert screen == old(screen) + head;
      if cursor < |output| {
        ConcatAssoc(old(screen), head, [TermOp.MoveLeft(|output| - cursor)]);
        screen := screen + [TermOp.MoveLeft(|output| - cursor)];
      } else {
        assert head + [] == head;
      }
    }

    /** `clear`: blanks the field on the terminal and empties it. */
    method Clear()
      modifies this`buf, this`cursor, this`lastSize, this`screen
      ensures State() == Field([], 0, 0)
      ensures screen == old(screen) + ClearOps(old(State()), Config())
    {
      PositionCursorAtBegin();
      var i := 0;
      while i < |buf|
        invariant 0 <= i <= |buf| && State() == old(State())
        invariant screen == old(screen) + [Begin(State(), Config())] + Repeat(Write([Space]), i)
      {
        screen := screen + [Write([Space])];
        i := i + 1;
      }
      PositionCursorAtBegin();
      ConcatAssoc(old(screen), [Begin(State(), Config())] + Repeat(Write([Space]), |buf|), [Begin(State(), Config())]);
      buf := [];
      cursor := 0;
      lastSize := 0;
    }

    /** `clear` moving back over the blanks it wrote, so that the terminal cursor ends at the field's start. */
    method ClearToOrigin()
      modifies this`buf, this`cursor, this`lastSize, this`screen
      ensures State() == Field([], 0, 0)
      ensures screen == old(screen) + ClearOpsToOrigin(old(State()), Config())
    {
      PositionCursorAtBegin();
      var i := 0;
      while i < |buf|
        invariant 0 <= i <= |buf| && State() == old(State())
        invariant screen == old(screen) + [Begin(State(), Config())] + Repeat(Write([Space]), i)
      {
        screen := screen + [Write([Space])];
        i := i + 1;
      }
      var back := if position.Some? then SetCursor(position.value.row, position.value.col) else TermOp.MoveLeft(|buf|);
      ConcatAssoc(old(screen), [Begin(State(), Config())] + Repeat(Write([Space]), |buf|), [back]);
      screen := screen + [back];
      buf := [];
      cursor := 0;
      lastSize := 0;
    }

    method MoveRight()
      modifies this`cursor, this`screen
      ensures var e := MoveRightEff(old(State())); State() == e.next && screen == old(screen) + e.ops
    {
      if cursor < |buf| {
        cursor := cursor + 1;
        screen := screen + [TermOp.MoveRight(1)];
      } else {
        screen := screen + [Bell];
      }
    }

    method MoveLeft()
      modifies this`cursor, this`screen
      ensures var e := MoveLeftEff(old(State())); State() == e.next && screen == old(screen) + e.ops
    {
      if cursor > 0 {
        cursor := cursor - 1;
        screen := screen + [TermOp.MoveLeft(1)];
      } else {
        screen := screen + [Bell];
      }
    }

    method Append(ch: CodeUnit) returns (fault: Option<Fault>)
      modifies this`buf, this`cursor, this`lastSize, this`screen
      ensures var e := AppendEff(old(State()), Config(), ch);
        State() == e.next && screen == old(screen) + e.ops && fault == e.fault
    {
      lastSize := |buf|;
      if 1 > capacity - |buf| {
        return Some(BufferOverflow);
      }
      buf := buf + [ch];
      cursor := cursor + 1;
      if !password {
        screen := screen + [Write([ch])];
      } else {
        screen := screen + [Write([Dot])];
      }
      fault := None;
    }

    method AppendString(str: JString) returns (fault: Option<Fault>)
      modifies this`buf, this`cursor, this`lastSize, this`screen
      ensures var e := AppendStringEff(old(State()), Config(), str);
        State() == e.next && screen == old(screen) + e.ops && fault == e.fault
    {
      lastSize := |buf|;
      if |str| > capacity - |buf| {
        return Some(BufferOverflow);
      }
      var i := 0;
      while i < |str|
        invariant 0 <= i <= |str|
        invariant buf == old(buf) + str[..i] && cursor == old(cursor) + i
        invariant lastSize == |old(buf)| && screen == old(screen)
      {
        buf := buf + [str[i]];
        cursor := cursor + 1;
        i := i + 1;
      }
      assert str[..|str|] == str;
      if !password {
        screen := screen + [Write(str)];
      } else {
        var dots: JString := [];
        var n := 0;
        while n < |str|
          invariant 0 <= n <= |str| && dots == Repeat(Dot, n)
        {
          dots := dots + [Dot];
          n := n + 1;
        }
        screen := screen + [Write(dots)];
      }
      fault := None;
    }

    /** `setValue`: clears the field, then appends `str`. */
    method SetValue(str: JString) returns (fault: Option<Fault>)
      modifies this`buf, this`cursor, this`lastSize, this`screen
      ensures fault.None? <==> |str| <= capacity
      ensures fault.None? ==> buf == str && cursor == |str|
      ensures fault.Some? ==> fault == Some(BufferOverflow) && buf == [] && cursor == 0
      ensures var e := AppendStringEff(Field([], 0, 0), Config(), str);
        State() == e.next && screen == old(screen) + ClearOps(old(State()), Config()) + e.ops
    {
      Clear();
      fault := AppendString(str);
    }

    /** `insertStringAt`, as written. */
    method InsertStringAt(pos: int, str: JString) returns (fault: Option<Fault>)
      modifies this`buf, this`cursor, this`lastSize, this`screen
      ensures var e := InsertStringEff(old(State()), Config(), pos, str);
        State() == e.next && screen == old(screen) + e.ops && fault == e.fault
    {
      lastSize := |buf|;
      if |str| > capacity - |buf| {
        return Some(BufferOverflow);
      }
      var i := 0;
      while i < |str|
        invariant 0 <= i <= |str| && lastSize == |old(buf)| && screen == old(screen)
        invariant i > 0 ==> 0 <= pos <= |old(buf)|
        invariant i > 0 ==> buf == old(buf)[..pos] + Reversed(str[..i]) + old(buf)[pos..]
        invariant i == 0 ==> buf == old(buf)
        invariant cursor == old(cursor) + i
      {
        if pos < 0 || pos > |buf| {
          return Some(IndexOutOfBounds);
        }
        ReversedPrefix(str, i);
        SpliceFront(old(buf)[..pos], Reversed(str[..i]), old(buf)[pos..], str[i]);
        buf := buf[..pos] + [str[i]] + buf[pos..];
        cursor := cursor + 1;
        i := i + 1;
      }
      assert str[..|str|] == str;
      ghost var e := InsertStringEff(old(State()), Config(), pos, str);
      assert State() == e.next;
      Draw();
      fault := None;
    }

    /** `insertStringAt` with each character inserted after the previous one. */
    method InsertStringInOrder(pos: int, str: JString) returns (fault: Option<Fault>)
      modifies this`buf, this`cursor, this`lastSize, this`screen
      ensures var e := InsertStringInOrderEff(old(State()), Config(), pos, str);
        State() == e.next && screen == old(screen) + e.ops && fault == e.fault
    {
      lastSize := |buf|;
      if |str| > capacity - |buf| {
        return Some(BufferOverflow);
      }
      var i := 0;
      while i < |str|
        invariant 0 <= i <= |str| && lastSize == |old(buf)| && screen == old(screen)
        invariant i > 0 ==> 0 <= pos <= |old(buf)|
        invariant i > 0 ==> buf == old(buf)[..pos] + str[..i] + old(buf)[pos..]
        invariant i == 0 ==> buf == old(buf)
        invariant cursor == old(cursor) + i
      {
        if pos < 0 || pos > |buf| {
          return Some(IndexOutOfBounds);
        }
        assert str[..i + 1] == str[..i] + [str[i]];
        SpliceBack(old(buf)[..pos], str[..i], old(buf)[pos..], str[i]);
        buf := buf[..pos + i] + [str[i]] + buf[pos + i..];
        cursor := cursor + 1;
        i := i + 1;
      }
      assert str[..|str|] == str;
      Draw();
      fault := None;
    }

    method InsertCharAt(pos: int, ch: CodeUnit) returns (fault: Option<Fault>)
      modifies this`buf, this`cursor, this`lastSize, this`screen
      ensures var e := InsertEff(old(State()), Config(), pos, ch);
        State() == e.next && screen == old(screen) + e.ops && fault == e.fault
    {
      lastSize := |buf|;
      if 1 > capacity - |buf| {
        return Some(BufferOverflow);
      }
      if pos < 0 || pos > |buf| {
        return Some(IndexOutOfBounds);
      }
      buf := buf[..pos] + [ch] + buf[pos..];
      ghost var mid := screen;
      if cursor >= pos {
        MoveRight();
      }
      Draw();
      ConcatAssoc(old(screen), mid[|old(screen)|..], DrawOps(State(), Config()));
      fault := None;
    }

    method SetCharAt(pos: int, ch: CodeUnit) returns (fault: Option<Fault>)
      modifies this`buf, this`screen
      ensures var e := SetCharEff(old(State()), Config(), pos, ch);
        State() == e.next && screen == old(screen) + e.ops && fault == e.fault
    {
      if pos < 0 || pos >= |buf| {
        return Some(IndexOutOfBounds);
      }
      buf := buf[pos := ch];
      Draw();
      fault := None;
    }

    method RemoveCharAt(pos: int) returns (fault: Option<Fault>)
      modifies this`buf, this`cursor, this`lastSize, this`screen
      ensures var e := RemoveEff(old(State()), Config(), pos);
        State() == e.next && screen == old(screen) + e.ops && fault == e.fault
    {
      lastSize := |buf|;
      if pos < 0 || pos >= |buf| {
        return Some(IndexOutOfBounds);
      }
      buf := buf[..pos] + buf[pos + 1..];
      ghost var mid := screen;
      if cursor > pos {
        MoveLeft();
      }
      Draw();
      ConcatAssoc(old(screen), mid[|old(screen)|..], DrawOps(State(), Config()));
      fault := None;
    }

    method HandleCharInput(c: int) returns (fault: Option<Fault>)
      modifies this`buf, this`cursor, this`lastSize, this`screen
      ensures var e := CharInputEff(old(State()), Config(), c);
        State() == e.next && screen == old(screen) + e.ops && fault == e.fault
    {
      if cursor == |buf| {
        fault := Append(ToChar(c));
        if fault == Some(BufferOverflow) {
          screen := screen + [Bell];
          fault := None;
        }
      } else if insertMode {
        fault := InsertCharAt(cursor, ToChar(c));
        if fault == Some(BufferOverflow) {
          screen := screen + [Bell];
          fault := None;
        }
      } else {
        fault := SetCharAt(cursor, ToChar(c));
        if fault == Some(IndexOutOfBounds) {
          screen := screen + [Bell];
          fault := None;
        }
      }
    }

    /** One pass of the run loop's switch on an already filtered key; `done` when the loop ends. */
    method HandleKey(key: int) returns (fault: Option<Fault>, done: bool)
      requires SwitchKeys(keys)
      modifies this`buf, this`cursor, this`lastSize, this`screen
      ensures var e := KeyEff(old(State()), Config(), keys, validator, key);
        State() == e.next && screen == old(screen) + e.ops && fault == e.fault
      ensures done == Ends(old(State()), keys, validator, key)
    {
      KeysDistinct(keys);
      fault, done := None, false;
      if key == -1 {
        buf := [];
        done := true;
      } else if key == InputHandled {
      } else if key == InputInvalid {
        screen := screen + [Bell];
      } else if key == keys.left {
        MoveLeft();
      } else if key == keys.right {
        MoveRight();
      } else if key == keys.up || key == keys.down {
        screen := screen + [Bell];
      } else if key == keys.enter {
        if validator.None? || validator.value(buf) {
          done := true;
        } else {
          screen := screen + [Bell];
        }
      } else if key == keys.backspace {
        fault := RemoveCharAt(cursor - 1);
        if fault == Some(IndexOutOfBounds) {
          screen := screen + [Bell];
          fault := None;
        }
      } else if key == keys.delete {
        fault := RemoveCharAt(cursor);
        if fault == Some(IndexOutOfBounds) {
          screen := screen + [Bell];
          fault := None;
        }
      } else if key == keys.tabulator {
        done := true;
      } else {
        fault := HandleCharInput(key);
      }
    }

    /** The terminal's `read`: the next key, or an IOException once the connection has none. */
    method ReadKey() returns (r: Result<int, Fault>)
      modifies this`input
      ensures old(input) == [] ==> r == Err(Closed) && input == []
      ensures old(input) != [] ==> r == Ok(old(input)[0]) && input == old(input)[1..]
    {
      if input == [] {
        return Err(Closed);
      }
      r := Ok(input[0]);
      input := input[1..];
    }

    /**
     * `run`: repaints the field, then reads, filters and handles keys until
     * one ends the loop or an exception escapes.
     */
    method Run() returns (fault: Option<Fault>)
      requires SwitchKeys(keys)
      modifies this`buf, this`cursor, this`lastSize, this`screen, this`input
      ensures var o := Session(old(State()), Config(), keys, filter, validator, old(input));
        && State() == o.field && screen == old(screen) + DrawOps(old(State()), Config()) + o.ops
        && input == o.rest && fault == o.fault
    {
      Draw();
      ghost var total := Session(State(), Config(), keys, filter, validator, input);
      ghost var start := screen;
      ghost var echoed: seq<TermOp> := [];
      while true
        invariant screen == start + echoed
        invariant var o := Session(State(), Config(), keys, filter, validator, input);
          total == Outcome(o.field, echoed + o.ops, o.rest, o.fault)
        decreases |input|
      {
        ghost var before := State();
        ghost var keysBefore := input;
        var r := ReadKey();
        if r.Err? {
          assert echoed + [] == echoed;
          return Some(r.error);
        }
        var key := r.value;
        if justBackspace && key == keys.delete {
          key := keys.backspace;
        }
        if filter.Some? {
          key := filter.value(key);
        }
        assert key == Filtered(Config(), keys, filter, keysBefore[0]);
        ghost var mid := screen;
        var done;
        fault, done := HandleKey(key);
        ghost var e := KeyEff(before, Config(), keys, validator, key);
        ConcatAssoc(start, echoed, e.ops);
        if fault.Some? || done {
          echoed := echoed + e.ops;
          return;
        }
        ghost var o := Session(State(), Config(), keys, filter, validator, input);
        ConcatAssoc(echoed, e.ops, o.ops);
        echoed := echoed + e.ops;
      }
    }
  }

  // ---------------------------------------------------------------------
  // The field on the terminal

  /**
   * The terminal cells from the field's first column on, and the terminal
   * cursor's column counted from there. Every written character takes one
   * cell; setting the cursor to the field's position goes to its first column.
   */
  datatype Row = Row(cells: seq<int>, col: int) {
    predicate Valid() { 0 <= col <= |cells| }
  }

  function Apply(r: Row, op: TermOp): (r': Row)
    requires r.Valid()
    ensures r'.Valid()
  {
    match op
    case Write(t) =>
      var after := if r.col + |t| < |r.cells| then r.cells[r.col + |t|..] else [];
      Row(r.cells[..r.col] + t + after, r.col + |t|)
    case MoveLeft(n) => Row(r.cells, if 0 <= n <= r.col then r.col - n else if n < 0 then r.col else 0)
    case MoveRight(n) =>
      if n <= 0 then r
      else if r.col + n <= |r.cells| then Row(r.cells, r.col + n)
      else Row(r.cells + Repeat(Space as int, r.col + n - |r.cells|), r.col + n)
    case SetCursor(_, _) => Row(r.cells, 0)
    case Bell => r
    case NewLine => Row([], 0)
  }

  function ApplyAll(r: Row, ops: seq<TermOp>): (r': Row)
    requires r.Valid()
    ensures r'.Valid()
    decreases |ops|
  {
    if ops == [] then r else ApplyAll(Apply(r, ops[0]), ops[1..])
  }

  lemma {:induction false} ApplyAllAppend(r: Row, a: seq<TermOp>, b: seq<TermOp>)
    requires r.Valid()
    ensures ApplyAll(r, a + b) == ApplyAll(ApplyAll(r, a), b)
    decreases |a|
  {
    if a != [] {
      assert (a + b)[0] == a[0] && (a + b)[1..] == a[1..] + b;
      ApplyAllAppend(Apply(r, a[0]), a[1..], b);
    } else {
      assert a + b == b;
    }
  }

  lemma ApplyAllOne(r: Row, op: TermOp)
    requires r.Valid()
    ensures ApplyAll(r, [op]) == Apply(r, op)
  {
    assert [op][1..] == [];
  }

  /** The terminal shows the field: its cursor is at the field's cursor and its cells start with the shown buffer. */
  predicate Shows(r: Row, f: Field, password: bool) {
    r.Valid() && r.col == f.cursor && |f.buf| <= |r.cells| && r.cells[..|f.buf|] == Masked(f.buf, password)
  }

  /** Writing `t` at column `col` puts `t` in the cells from `col` on and keeps the ones before. */
  lemma WriteCells(r: Row, t: seq<int>)
    requires r.Valid()
    ensures var r' := Apply(r, Write(t));
      r'.col == r.col + |t| && |r'.cells| >= r.col + |t|
      && r'.cells[..r.col] == r.cells[..r.col] && r'.cells[r.col..r.col + |t|] == t
      && r'.cells[r.col + |t|..] == if r.col + |t| < |r.cells| then r.cells[r.col + |t|..] else []
  {
  }

  /**
   * `draw` repaints the field: starting from the field's first column (or
   * the field's cursor when it has no position), it leaves the shown buffer
   * followed by blanks over every cell the previous value used, with the
   * terminal cursor on the field's cursor.
   */
  lemma DrawRepaints(f: Field, s: Settings, r: Row)
    requires r.Valid() && 0 <= f.cursor <= |f.buf|
    requires s.position.None? ==> r.col == f.cursor
    ensures var r' := ApplyAll(r, DrawOps(f, s)); var out := DrawText(f, s.password);
      && |out| <= |r'.cells| && r'.cells[..|out|] == out
      && Shows(r', f, s.password)
  {
    var out := DrawText(f, s.password);
    var r1 := Apply(r, Begin(f, s));
    var r2 := Apply(r1, Write(out));
    WriteCells(r1, out);
    assert r2.col == |out| && r2.cells[..|out|] == out;
    var r3 := if f.cursor < |out| then Apply(r2, TermOp.MoveLeft(|out| - f.cursor)) else r2;
    assert r3.cells == r2.cells && r3.col == f.cursor;
    DrawSteps(f, s, r);
    assert r3.cells[..|f.buf|] == out[..|f.buf|];
  }

  /** The terminal after `draw`, one operation at a time. */
  lemma DrawSteps(f: Field, s: Settings, r: Row)
    requires r.Valid()
    ensures var out := DrawText(f, s.password);
      var r2 := Apply(Apply(r, Begin(f, s)), Write(out));
      ApplyAll(r, DrawOps(f, s)) == if f.cursor < |out| then Apply(r2, TermOp.MoveLeft(|out| - f.cursor)) else r2
  {
    var out := DrawText(f, s.password);
    if f.cursor < |out| {
      assert DrawOps(f, s) == [Begin(f, s), Write(out), TermOp.MoveLeft(|out| - f.cursor)];
      ApplyAllThree(r, Begin(f, s), Write(out), TermOp.MoveLeft(|out| - f.cursor));
    } else {
      assert DrawOps(f, s) == [Begin(f, s), Write(out)];
      ApplyAllTwo(r, Begin(f, s), Write(out));
    }
  }

  lemma ApplyAllTwo(r: Row, a: TermOp, b: TermOp)
    requires r.Valid()
    ensures ApplyAll(r, [a, b]) == Apply(Apply(r, a), b)
  {
    assert [a, b][1..] == [b];
    ApplyAllOne(Apply(r, a), b);
  }

  lemma ApplyAllThree(r: Row, a: TermOp, b: TermOp, c: TermOp)
    requires r.Valid()
    ensures ApplyAll(r, [a, b, c]) == Apply(Apply(Apply(r, a), b), c)
  {
    assert [a, b, c][1..] == [b, c];
    ApplyAllTwo(Apply(r, a), b, c);
  }

  /** A bell after an operation leaves the terminal as the operation did. */
  lemma BellChangesNothing(r: Row, ops: seq<TermOp>)
    requires r.Valid()
    ensures ApplyAll(r, ops + [Bell]) == ApplyAll(r, ops)
  {
    ApplyAllAppend(r, ops, [Bell]);
    ApplyAllOne(ApplyAll(r, ops), Bell);
  }

  lemma MovesKeepScreen(f: Field, password: bool, r: Row)
    requires 0 <= f.cursor <= |f.buf| && Shows(r, f, password)
    ensures Shows(ApplyAll(r, MoveLeftEff(f).ops), MoveLeftEff(f).next, password)
    ensures Shows(ApplyAll(r, MoveRightEff(f).ops), MoveRightEff(f).next, password)
  {
    ApplyAllOne(r, MoveLeftEff(f).ops[0]);
    ApplyAllOne(r, MoveRightEff(f).ops[0]);
  }

  /** The echo of an appended character extends what the terminal shows by that character (or a dot). */
  lemma AppendKeepsScreen(f: Field, s: Settings, ch: CodeUnit, r: Row)
    requires f.cursor == |f.buf| < s.capacity && Shows(r, f, s.password)
    ensures Shows(ApplyAll(r, AppendEff(f, s, ch).ops), AppendEff(f, s, ch).next, s.password)
  {
    var t := [if s.password then Dot else ch];
    ApplyAllOne(r, Write(t));
    WriteCells(r, t);
    var r' := Apply(r, Write(t));
    var m := Masked(f.buf + [ch], s.password);
    assert r'.cells[..|f.buf| + 1] == r.cells[..|f.buf|] + t;
    assert m == Masked(f.buf, s.password) + t;
  }

  lemma InsertKeepsScreen(f: Field, s: Settings, ch: CodeUnit, r: Row)
    requires Valid(f, s.capacity) && f.cursor < |f.buf| < s.capacity && Shows(r, f, s.password)
    ensures var e := InsertEff(f, s, f.cursor, ch);
      Valid(e.next, s.capacity) && Shows(ApplyAll(r, e.ops), e.next, s.password)
  {
    var f2 := Field(f.buf[..f.cursor] + [ch] + f.buf[f.cursor..], f.cursor, |f.buf|);
    var m := MoveRightEff(f2);
    ApplyAllOne(r, TermOp.MoveRight(1));
    var r1 := ApplyAll(r, m.ops);
    ApplyAllAppend(r, m.ops, DrawOps(m.next, s));
    DrawRepaints(m.next, s, r1);
  }

  lemma RemoveKeepsScreen(f: Field, s: Settings, pos: int, r: Row)
    requires Valid(f, s.capacity) && 0 <= pos < |f.buf| && (pos == f.cursor || pos == f.cursor - 1)
    requires Shows(r, f, s.password)
    ensures var e := RemoveEff(f, s, pos);
      Valid(e.next, s.capacity) && Shows(ApplyAll(r, e.ops), e.next, s.password)
  {
    var f2 := Field(f.buf[..pos] + f.buf[pos + 1..], f.cursor, |f.buf|);
    var m := if f2.cursor > pos then MoveLeftEff(f2) else Effect(f2, [], None);
    if f2.cursor > pos {
      ApplyAllOne(r, TermOp.MoveLeft(1));
    }
    var r1 := ApplyAll(r, m.ops);
    ApplyAllAppend(r, m.ops, DrawOps(m.next, s));
    DrawRepaints(m.next, s, r1);
  }

  lemma SetCharKeepsScreen(f: Field, s: Settings, ch: CodeUnit, r: Row)
    requires Valid(f, s.capacity) && f.cursor < |f.buf| && Shows(r, f, s.password)
    ensures var e := SetCharEff(f, s, f.cursor, ch);
      Valid(e.next, s.capacity) && Shows(ApplyAll(r, e.ops), e.next, s.password)
  {
    DrawRepaints(f.(buf := f.buf[f.cursor := ch]), s, r);
  }

  /**
   * A typed character never lets an exception escape from a field whose
   * cursor lies within its buffer, keeps the field within its bounds, and
   * keeps the terminal showing the field.
   */
  lemma CharInputKeepsScreen(f: Field, s: Settings, c: int, r: Row)
    requires Valid(f, s.capacity) && Shows(r, f, s.password)
    ensures var e := CharInputEff(f, s, c);
      e.fault.None? && Valid(e.next, s.capacity) && Shows(ApplyAll(r, e.ops), e.next, s.password)
  {
    var ch := ToChar(c);
    if f.cursor == |f.buf| {
      if |f.buf| < s.capacity {
        AppendKeepsScreen(f, s, ch, r);
      } else {
        BellChangesNothing(r, []);
      }
    } else if s.insertMode {
      if |f.buf| < s.capacity {
        InsertKeepsScreen(f, s, ch, r);
      } else {
        BellChangesNothing(r, []);
      }
    } else {
      SetCharKeepsScreen(f, s, ch, r);
    }
  }

  /**
   * Every key other than -1 keeps the cursor within the buffer and the
   * buffer within its capacity, lets no exception escape, and keeps the
   * terminal showing the field.
   */
  lemma KeyKeepsScreen(f: Field, s: Settings, k: KeyCodes, validator: Option<JString -> bool>, key: int, r: Row)
    requires SwitchKeys(k) && Valid(f, s.capacity) && Shows(r, f, s.password) && key != -1
    ensures var e := KeyEff(f, s, k, validator, key);
      e.fault.None? && Valid(e.next, s.capacity) && Shows(ApplyAll(r, e.ops), e.next, s.password)
  {
    var e := KeyEff(f, s, k, validator, key);
    if key == k.left || key == k.right {
      MovesKeepScreen(f, s.password, r);
    } else if key == k.backspace || key == k.delete {
      EraseKeyKeepsScreen(f, s, k, validator, key, r);
    } else if key == InputHandled || key == InputInvalid || key == k.up || key == k.down || key == k.enter || key == k.tabulator {
      assert e.next == f && (e.ops == [] || e.ops == [Bell]);
      BellChangesNothing(r, []);
    } else {
      assert e == CharInputEff(f, s, key);
      CharInputKeepsScreen(f, s, key, r);
    }
  }

  lemma EraseKeyKeepsScreen(f: Field, s: Settings, k: KeyCodes, validator: Option<JString -> bool>, key: int, r: Row)
    requires SwitchKeys(k) && Valid(f, s.capacity) && Shows(r, f, s.password)
    requires key == k.backspace || key == k.delete
    ensures var e := KeyEff(f, s, k, validator, key);
      e.fault.None? && Valid(e.next, s.capacity) && Shows(ApplyAll(r, e.ops), e.next, s.password)
  {
    var pos := if key == k.backspace then f.cursor - 1 else f.cursor;
    EraseKeyRemoves(f, s, k, validator, key);
    CaughtRemoveKeepsScreen(f, s, pos, r);
  }

  /** BACKSPACE removes the character before the cursor and DELETE the one at it. */
  lemma EraseKeyRemoves(f: Field, s: Settings, k: KeyCodes, validator: Option<JString -> bool>, key: int)
    requires SwitchKeys(k)
    requires key == k.backspace || key == k.delete
    ensures KeyEff(f, s, k, validator, key)
         == Catch(RemoveEff(f, s, if key == k.backspace then f.cursor - 1 else f.cursor), IndexOutOfBounds)
  {
    KeysDistinct(k);
  }

  /** A removal next to the cursor, its index exception turned into a bell, keeps the screen right. */
  lemma CaughtRemoveKeepsScreen(f: Field, s: Settings, pos: int, r: Row)
    requires Valid(f, s.capacity) && Shows(r, f, s.password)
    requires pos == f.cursor || pos == f.cursor - 1
    ensures var e := Catch(RemoveEff(f, s, pos), IndexOutOfBounds);
      e.fault.None? && Valid(e.next, s.capacity) && Shows(ApplyAll(r, e.ops), e.next, s.password)
  {
    if 0 <= pos < |f.buf| {
      RemoveKeepsScreen(f, s, pos, r);
    } else {
      BellChangesNothing(r, []);
    }
  }

  /**
   * A run over keys none of which is -1, without a filter, never lets an
   * index exception escape: it ends normally or when the keys run out; the
   * field stays within its bounds and the terminal keeps showing it.
   */
  lemma {:induction false} SessionKeepsScreen(f: Field, s: Settings, k: KeyCodes, validator: Option<JString -> bool>,
                                              keys: seq<int>, r: Row)
    requires SwitchKeys(k) && Valid(f, s.capacity) && Shows(r, f, s.password)
    requires forall i :: 0 <= i < |keys| ==> keys[i] != -1
    ensures var o := Session(f, s, k, None, validator, keys);
      && (o.fault.None? || o.fault == Some(Closed))
      && Valid(o.field, s.capacity) && Shows(ApplyAll(r, o.ops), o.field, s.password)
    decreases |keys|
  {
    if keys != [] {
      var key := Filtered(s, k, None, keys[0]);
      KeysDistinct(k);
      assert key != -1;
      var e := KeyEff(f, s, k, validator, key);
      KeyKeepsScreen(f, s, k, validator, key, r);
      if !Ends(f, k, validator, key) {
        var r1 := ApplyAll(r, e.ops);
        var o := Session(e.next, s, k, None, validator, keys[1..]);
        SessionKeepsScreen(e.next, s, k, validator, keys[1..], r1);
        ApplyAllAppend(r, e.ops, o.ops);
      }
    }
  }

  /** A key the run loop's switch passes to `handleCharInput`. */
  predicate PlainKey(k: KeyCodes, c: int) {
    c != -1 && c != InputHandled && c != InputInvalid && c !in k.All()
  }

  /**
   * A typed character: appended at the end, inserted before the cursor in
   * insert mode, written over the character at the cursor in overwrite mode
   * (which keeps the cursor where it is); a full field rings the bell and
   * keeps its text and cursor.
   */
  lemma Typing(f: Field, s: Settings, k: KeyCodes, validator: Option<JString -> bool>, c: int)
    requires SwitchKeys(k) && Valid(f, s.capacity) && PlainKey(k, c)
    ensures var e := KeyEff(f, s, k, validator, c); var ch := ToChar(c);
      && e.fault.None?
      && (f.cursor == |f.buf| < s.capacity ==> e.next.buf == f.buf + [ch] && e.next.cursor == f.cursor + 1)
      && (f.cursor < |f.buf| < s.capacity && s.insertMode ==>
            e.next.buf == f.buf[..f.cursor] + [ch] + f.buf[f.cursor..] && e.next.cursor == f.cursor + 1)
      && (f.cursor < |f.buf| && !s.insertMode ==>
            e.next.buf == f.buf[f.cursor := ch] && e.next.cursor == f.cursor && |e.next.buf| == |f.buf|)
      && ((f.cursor == |f.buf| || s.insertMode) && |f.buf| == s.capacity ==>
            e.next.buf == f.buf && e.next.cursor == f.cursor && e.ops == [Bell])
  {
    PlainKeyTypes(f, s, k, validator, c);
    CharTyped(f, s, c);
  }

  /** A key outside the switch's cases goes to `handleCharInput`. */
  lemma PlainKeyTypes(f: Field, s: Settings, k: KeyCodes, validator: Option<JString -> bool>, c: int)
    requires SwitchKeys(k) && PlainKey(k, c)
    ensures KeyEff(f, s, k, validator, c) == CharInputEff(f, s, c)
  {
    assert k.All()[0] == k.up && k.All()[1] == k.down && k.All()[2] == k.right && k.All()[3] == k.left;
    assert k.All()[4] == k.enter && k.All()[5] == k.tabulator && k.All()[6] == k.delete && k.All()[7] == k.backspace;
  }

  /** What `handleCharInput` does to the text and the cursor, its exceptions caught as bells. */
  lemma CharTyped(f: Field, s: Settings, c: int)
    requires Valid(f, s.capacity)
    ensures var e := CharInputEff(f, s, c); var ch := ToChar(c);
      && e.fault.None?
      && (f.cursor == |f.buf| < s.capacity ==> e.next.buf == f.buf + [ch] && e.next.cursor == f.cursor + 1)
      && (f.cursor < |f.buf| < s.capacity && s.insertMode ==>
            e.next.buf == f.buf[..f.cursor] + [ch] + f.buf[f.cursor..] && e.next.cursor == f.cursor + 1)
      && (f.cursor < |f.buf| && !s.insertMode ==>
            e.next.buf == f.buf[f.cursor := ch] && e.next.cursor == f.cursor && |e.next.buf| == |f.buf|)
      && ((f.cursor == |f.buf| || s.insertMode) && |f.buf| == s.capacity ==>
            e.next.buf == f.buf && e.next.cursor == f.cursor && e.ops == [Bell])
  {
  }

  /**
   * BACKSPACE removes the character before the cursor and steps back; DELETE
   * removes the character at the cursor and keeps the cursor; at the ends of
   * the buffer each rings the bell and changes neither text nor cursor.
   */
  lemma Erasing(f: Field, s: Settings, k: KeyCodes, validator: Option<JString -> bool>)
    requires SwitchKeys(k) && Valid(f, s.capacity)
    ensures var e := KeyEff(f, s, k, validator, k.backspace);
      && e.fault.None?
      && (f.cursor > 0 ==> e.next.buf == f.buf[..f.cursor - 1] + f.buf[f.cursor..] && e.next.cursor == f.cursor - 1)
      && (f.cursor == 0 ==> e.next.buf == f.buf && e.next.cursor == 0 && e.ops == [Bell])
    ensures var e := KeyEff(f, s, k, validator, k.delete);
      && e.fault.None?
      && (f.cursor < |f.buf| ==> e.next.buf == f.buf[..f.cursor] + f.buf[f.cursor + 1..] && e.next.cursor == f.cursor)
      && (f.cursor == |f.buf| ==> e.next.buf == f.buf && e.next.cursor == f.cursor && e.ops == [Bell])
  {
    KeysDistinct(k);
  }

  /** In "just backspace" mode DELETE reaches the switch as BACKSPACE; otherwise it stays DELETE. */
  lemma JustBackspaceTurnsDelete(s: Settings, k: KeyCodes, filter: Option<int -> int>)
    requires filter.None?
    ensures Filtered(s, k, filter, k.delete) == if s.justBackspace then k.backspace else k.delete
  {
  }

  /**
   * The -1 key empties the buffer and ends the loop but keeps the cursor,
   * which then lies beyond the empty buffer whenever it was not at 0.
   */
  lemma MinusOneKeepsCursor(f: Field, s: Settings, k: KeyCodes, validator: Option<JString -> bool>)
    requires SwitchKeys(k) && Valid(f, s.capacity) && f.cursor > 0
    ensures var e := KeyEff(f, s, k, validator, -1);
      e.next == Field([], f.cursor, f.lastSize) && !Valid(e.next, s.capacity) && Ends(f, k, validator, -1)
  {
  }

  /** Of the terminal's keys only TAB and an accepted ENTER end the loop. */
  lemma EndingKeys(f: Field, k: KeyCodes, validator: Option<JString -> bool>, key: int)
    requires SwitchKeys(k) && key in k.All()
    ensures Ends(f, k, validator, key) <==>
      key == k.tabulator || (key == k.enter && (validator.None? || validator.value(f.buf)))
  {
    KeysDistinct(k);
  }

  /** In insert mode, typing a character and then BACKSPACE gives the field its text and cursor back. */
  lemma TypeThenBackspace(f: Field, s: Settings, k: KeyCodes, validator: Option<JString -> bool>, c: int)
    requires SwitchKeys(k) && Valid(f, s.capacity) && PlainKey(k, c) && s.insertMode && |f.buf| < s.capacity
    ensures var e1 := KeyEff(f, s, k, validator, c);
      var e2 := KeyEff(e1.next, s, k, validator, k.backspace);
      e2.next.buf == f.buf && e2.next.cursor == f.cursor
  {
    Typing(f, s, k, validator, c);
    var e1 := KeyEff(f, s, k, validator, c);
    Erasing(e1.next, s, k, validator);
    var b := e1.next.buf;
    if f.cursor == |f.buf| {
      assert b[..f.cursor] == f.buf;
    } else {
      assert b[..f.cursor] == f.buf[..f.cursor];
      assert b[f.cursor + 1..] == f.buf[f.cursor..];
    }
  }

  // ---------------------------------------------------------------------
  // Clearing the field

  /** Writing `n` single blanks from column `c`: the cells from `c` on become blanks and the cursor moves `n` on. */
  lemma {:induction false} WriteBlanks(r: Row, n: nat)
    requires r.Valid()
    ensures var r' := ApplyAll(r, Repeat(Write([Space]), n));
      r'.col == r.col + n && |r'.cells| >= r.col + n
      && r'.cells[..r.col] == r.cells[..r.col]
      && (forall i :: r.col <= i < r.col + n ==> r'.cells[i] == Space)
      && |r'.cells| >= |r.cells|
  {
    if n > 0 {
      WriteBlanks(r, n - 1);
      var r1 := ApplyAll(r, Repeat(Write([Space]), n - 1));
      ApplyAllAppend(r, Repeat(Write([Space]), n - 1), [Write([Space])]);
      ApplyAllOne(r1, Write([Space]));
      WriteCells(r1, [Space]);
    }
  }

  /**
   * `clear` as written: when the cursor is not at the end of the buffer the
   * second repositioning stops short of the field's start, so the terminal
   * cursor no longer matches the cleared field's cursor 0.
   */
  lemma ClearStrandsCursor()
    ensures var f := Field([97, 98], 0, 0);
      var s := Settings(10, true, false, false, None);
      var r := Row([97, 98], 0);
      Shows(r, f, false) && ApplyAll(r, ClearOps(f, s)).col == 2
  {
    var f := Field([97, 98], 0, 0);
    var s := Settings(10, true, false, false, None);
    var r := Row([97, 98], 0);
    assert ClearOps(f, s) == [TermOp.MoveLeft(0)] + Repeat(Write([Space]), 2) + [TermOp.MoveLeft(0)];
    ApplyAllAppend(r, [TermOp.MoveLeft(0)] + Repeat(Write([Space]), 2), [TermOp.MoveLeft(0)]);
    ApplyAllAppend(r, [TermOp.MoveLeft(0)], Repeat(Write([Space]), 2));
    ApplyAllOne(r, TermOp.MoveLeft(0));
    WriteBlanks(r, 2);
    ApplyAllOne(ApplyAll(r, [TermOp.MoveLeft(0)] + Repeat(Write([Space]), 2)), TermOp.MoveLeft(0));
  }

  /**
   * `clear` returning by the length of the blanked text: the field's old
   * cells are blank and the terminal cursor is back at the field's start,
   * matching the cleared field.
   */
  lemma ClearToOriginBlanks(f: Field, s: Settings, r: Row)
    requires 0 <= f.cursor <= |f.buf| && Shows(r, f, s.password)
    ensures var r' := ApplyAll(r, ClearOpsToOrigin(f, s));
      && Shows(r', Field([], 0, 0), s.password)
      && |r'.cells| >= |f.buf| && forall i :: 0 <= i < |f.buf| ==> r'.cells[i] == Space
  {
    var blanks := Repeat(Write([Space]), |f.buf|);
    var back := if s.position.Some? then SetCursor(s.position.value.row, s.position.value.col) else MoveLeft(|f.buf|);
    assert ClearOpsToOrigin(f, s) == [Begin(f, s)] + blanks + [back];
    ApplyAllAppend(r, [Begin(f, s)] + blanks, [back]);
    ApplyAllAppend(r, [Begin(f, s)], blanks);
    ApplyAllOne(r, Begin(f, s));
    var r1 := Apply(r, Begin(f, s));
    assert r1.col == 0;
    WriteBlanks(r1, |f.buf|);
    var r2 := ApplyAll(r1, blanks);
    ApplyAllOne(r2, back);
  }

  // ---------------------------------------------------------------------
  // Inserting a string

  /** `insertStringAt` as written puts "ab" into an empty field as "ba". */
  lemma InsertStringAtReverses()
    ensures var e := InsertStringEff(Field([], 0, 0), Settings(10, true, false, false, None), 0, [97, 98]);
      e.fault.None? && e.next.buf == [98, 97]
  {
    assert Reversed([97, 98]) == [98, 97] by {
      assert [97, 98][..1] == [97];
    }
  }

  // ---------------------------------------------------------------------
  // The "just backspace" setter

  /** `setJustBackspace(false)` as written leaves a new field in "just backspace" mode. */
  method SwitchOffIgnored(keys: KeyCodes) returns (mode: bool)
    ensures mode
  {
    var field := new Editfield(10, keys, []);
    field.SetJustBackspace(false);
    mode := field.justBackspace;
  }

  /** The corrected setter switches the mode off again after it was switched on. */
  method SwitchOffTakesEffect(keys: KeyCodes) returns (mode: bool)
    ensures !mode
  {
    var field := new Editfield(10, keys, []);
    field.SetJustBackspaceTo(true);
    field.SetJustBackspaceTo(false);
    mode := field.justBackspace;
  }

}
