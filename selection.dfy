/**
 * The toolkit's Selection: a list of options of which one is shown, with
 * the previously shown one remembered so that a repaint can blank what a
 * longer option left on the screen. Options are never null here.
 */
module Selection {

  import opened Outcomes
  import opened Terminal

  /** The options, the index of the shown option and the index shown before it. */
  datatype Menu = Menu(options: seq<JString>, selected: int, lastSelected: int)

  /** Both indices name options. */
  predicate Valid(m: Menu) {
    0 <= m.selected < |m.options| && 0 <= m.lastSelected < |m.options|
  }

  /** `getOption`: the option at `index`, or null (None) for an index outside the list. */
  function OptionAt(options: seq<JString>, index: int): (r: Option<JString>)
    ensures r.Some? <==> 0 <= index < |options|
    ensures r.Some? ==> r.value == options[index]
  {
    if 0 <= index < |options| then Some(options[index]) else None
  }

  /** `insertOption`: `str` at `index` when the Vector accepts that index, otherwise at the end. */
  function InsertAt(options: seq<JString>, str: JString, index: int): (r: seq<JString>)
    ensures |r| == |options| + 1
    ensures multiset(r) == multiset(options) + multiset{str}
    ensures 0 <= index <= |options| ==> r[index] == str && r[..index] == options[..index] && r[index + 1..] == options[index..]
    ensures !(0 <= index <= |options|) ==> r == options + [str]
  {
    if 0 <= index <= |options| then
      var r := options[..index] + [str] + options[index..];
      assert options == options[..index] + options[index..];
      assert r[..index] == options[..index] && r[index + 1..] == options[index..];
      r
    else options + [str]
  }

  /** `removeOption(int)`: the list without the option at `index`; unchanged for an index outside it. */
  function RemoveAt(options: seq<JString>, index: int): (r: seq<JString>)
    ensures 0 <= index < |options| ==> |r| == |options| - 1 && multiset(r) == multiset(options) - multiset{options[index]}
    ensures 0 <= index < |options| ==> r[..index] == options[..index] && r[index..] == options[index + 1..]
    ensures !(0 <= index < |options|) ==> r == options
  {
    if 0 <= index < |options| then
      var r := options[..index] + options[index + 1..];
      assert options == options[..index] + [options[index]] + options[index + 1..];
      assert r[..index] == options[..index] && r[index..] == options[index + 1..];
      r
    else options
  }

  /** The index of the first option equal to `str`. */
  function FirstIndex(options: seq<JString>, str: JString): (i: int)
    requires str in options
    ensures 0 <= i < |options| && options[i] == str
    ensures forall j :: 0 <= j < i ==> options[j] != str
  {
    if options[0] == str then 0 else 1 + FirstIndex(options[1..], str)
  }

  /** `removeOption(String)`: the list without the first option equal to `str`, if there is one. */
  function Remove(options: seq<JString>, str: JString): (r: seq<JString>)
    ensures str !in options ==> r == options
    ensures str in options ==> |r| == |options| - 1 && multiset(r) == multiset(options) - multiset{str}
    ensures str in options ==> var i := FirstIndex(options, str);
      str !in options[..i] && r == options[..i] + options[i + 1..]
  {
    if str in options then RemoveAt(options, FirstIndex(options, str)) else options
  }

  /** The text `draw` writes: the shown option, padded with spaces over a longer previous option. */
  function DrawText(current: JString, last: JString): (r: JString)
    ensures |r| == if |last| > |current| then |last| else |current|
    ensures r[..|current|] == current
    ensures forall i :: |current| <= i < |r| ==> r[i] == Space
  {
    var diff := |last| - |current|;
    current + if diff > 0 then Repeat(Space, diff) else []
  }

  /** What an operation leaves: the new menu, what it wrote to the terminal, and the exception it threw. */
  datatype Effect = Effect(next: Menu, ops: seq<TermOp>, fault: Option<Fault>)

  /**
   * `draw`: write the shown option (padded) at the component's position and
   * step back over it; a null from `getOption` for either index makes
   * `length()` throw.
   */
  function DrawEff(m: Menu, position: Option<Point>): (r: Effect)
    ensures r.next == m
    ensures r.fault.None? <==> OptionAt(m.options, m.selected).Some? && OptionAt(m.options, m.lastSelected).Some?
    ensures r.fault.Some? ==> r.fault == Some(NullPointer) && r.ops == []
  {
    var current := OptionAt(m.options, m.selected);
    var last := OptionAt(m.options, m.lastSelected);
    if current.None? || last.None? then Effect(m, [], Some(NullPointer))
    else
      var text := DrawText(current.value, last.value);
      var at := if position.Some? then [SetCursor(position.value.row, position.value.col)] else [];
      Effect(m, at + [Write(text), MoveLeft(|text|)], None)
  }

  /**
   * `setSelected`: an index below 0 or above the number of options is
   * ignored; any other index, the number of options included, becomes the
   * selected one, the old one the last selected, and the menu is redrawn.
   */
  function SetSelectedEff(m: Menu, position: Option<Point>, index: int): (r: Effect)
    ensures index < 0 || index > |m.options| ==> r == Effect(m, [], None)
    ensures 0 <= index <= |m.options| ==> r.next == m.(selected := index, lastSelected := m.selected)
  {
    if index < 0 || index > |m.options| then Effect(m, [], None)
    else DrawEff(m.(selected := index, lastSelected := m.selected), position)
  }

  /** `selectNext` moves on when the selected option is not the last one. */
  predicate HasNext(m: Menu) { m.selected < |m.options| - 1 }

  /** `selectPrevious` moves back when the selected index is above 0. */
  predicate HasPrevious(m: Menu) { m.selected > 0 }

  function SelectNextEff(m: Menu, position: Option<Point>): (r: Effect)
    ensures !HasNext(m) ==> r == Effect(m, [], None)
  {
    if HasNext(m) then SetSelectedEff(m, position, m.selected + 1) else Effect(m, [], None)
  }

  function SelectPreviousEff(m: Menu, position: Option<Point>): (r: Effect)
    ensures !HasPrevious(m) ==> r == Effect(m, [], None)
  {
    if HasPrevious(m) then SetSelectedEff(m, position, m.selected - 1) else Effect(m, [], None)
  }

  /** The run loop's switch on one key: LEFT/UP go back, RIGHT/DOWN go on, a bell where neither can. */
  function KeyEff(m: Menu, k: KeyCodes, position: Option<Point>, key: int): Effect {
    if key == k.left || key == k.up then
      if HasPrevious(m) then SelectPreviousEff(m, position) else Effect(m, [Bell], None)
    else if key == k.right || key == k.down then
      if HasNext(m) then SelectNextEff(m, position) else Effect(m, [Bell], None)
    else if key == k.tabulator || key == k.enter then Effect(m, [], None)
    else Effect(m, [Bell], None)
  }

  /** TAB and ENTER end the loop, and so does a key -1 (after its bell). */
  predicate Ends(k: KeyCodes, key: int) {
    key == k.tabulator || key == k.enter || key == -1
  }

  datatype Outcome = Outcome(menu: Menu, ops: seq<TermOp>, rest: seq<int>, fault: Option<Fault>)

  /** What `run` does after its first repaint, on the keys still to be read. */
  function Session(m: Menu, k: KeyCodes, position: Option<Point>, keys: seq<int>): Outcome
    decreases |keys|
  {
    if keys == [] then Outcome(m, [], [], Some(Closed))
    else
      var e := KeyEff(m, k, position, keys[0]);
      if e.fault.Some? || Ends(k, keys[0]) then Outcome(e.next, e.ops, keys[1..], e.fault)
      else
        var o := Session(e.next, k, position, keys[1..]);
        Outcome(o.menu, e.ops + o.ops, o.rest, o.fault)
  }

  class Selection {
    const keys: KeyCodes
    var options: seq<JString>
    var selected: int
    var lastSelected: int
    var position: Option<Point>
    /** The keys the terminal will deliver, in order. */
    var input: seq<int>
    /** Everything written to the terminal so far. */
    var screen: seq<TermOp>

    function State(): Menu
      reads this
    {
      Menu(options, selected, lastSelected)
    }

    constructor (keys: KeyCodes, input: seq<int>)
      ensures State() == Menu([], 0, 0) && position.None?
      ensures this.keys == keys && this.input == input && screen == []
    {
      this.keys := keys;
      options := [];
      selected := 0;
      lastSelected := 0;
      position := None;
      this.input := input;
      screen := [];
    }

    method AddOption(str: JString)
      modifies this`options
      ensures options == old(options) + [str]
    {
      options := options + [str];
    }

    method InsertOption(str: JString, index: int)
      modifies this`options
      ensures options == InsertAt(old(options), str, index)
    {
      if 0 <= index <= |options| {
        options := options[..index] + [str] + options[index..];
      } else {
        AddOption(str);
      }
    }

    method RemoveOptionAt(index: int)
      modifies this`options
      ensures options == RemoveAt(old(options), index)
    {
      if 0 <= index < |options| {
        options := options[..index] + options[index + 1..];
      }
    }

    /** `removeOption(String)`: a linear search for the first equal option. */
    method RemoveOption(str: JString)
      modifies this`options
      ensures options == Remove(old(options), str)
    {
      var i := 0;
      while i < |options|
        invariant 0 <= i <= |options| && options == old(options)
        invariant str !in options[..i]
      {
        if options[i] == str {
          assert FirstIndex(options, str) == i by {
            assert forall j :: 0 <= j < i ==> options[..i][j] == options[j];
          }
          RemoveOptionAt(i);
          return;
        }
        assert options[..i + 1] == options[..i] + [options[i]];
        i := i + 1;
      }
      assert options[..i] == options;
    }

    method Draw() returns (fault: Option<Fault>)
      modifies this`screen
      ensures var e := DrawEff(State(), position); screen == old(screen) + e.ops && fault == e.fault
    {
      if !(0 <= selected < |options|) || !(0 <= lastSelected < |options|) {
        return Some(NullPointer);
      }
      var text := options[selected];
      var diff := |options[lastSelected]| - |text|;
      if diff > 0 {
        var padded := text;
        var i := 0;
        while i < diff
          invariant 0 <= i <= diff && padded == text + Repeat(Space, i)
        {
          padded := padded + [Space];
          i := i + 1;
        }
        text := padded;
      }
      if position.Some? {
        screen := screen + [SetCursor(position.value.row, position.value.col)];
      }
      assert text == DrawText(options[selected], options[lastSelected]);
      ghost var at := screen[|old(screen)|..];
      ConcatAssoc(old(screen), at, [Write(text), MoveLeft(|text|)]);
      screen := screen + [Write(text), MoveLeft(|text|)];
      fault := None;
    }

    method SetSelected(index: int) returns (fault: Option<Fault>)
      modifies this`selected, this`lastSelected, this`screen
      ensures var e := SetSelectedEff(old(State()), position, index);
        State() == e.next && screen == old(screen) + e.ops && fault == e.fault
    {
      if index < 0 || index > |options| {
        return None;
      }
      lastSelected := selected;
      selected := index;
      fault := Draw();
    }

    method SelectNext() returns (moved: bool, fault: Option<Fault>)
      modifies this`selected, this`lastSelected, this`screen
      ensures moved == HasNext(old(State()))
      ensures var e := SelectNextEff(old(State()), position);
        State() == e.next && screen == old(screen) + e.ops && fault == e.fault
    {
      if selected < |options| - 1 {
        fault := SetSelected(selected + 1);
        return true, fault;
      }
      return false, None;
    }

    method SelectPrevious() returns (moved: bool, fault: Option<Fault>)
      modifies this`selected, this`lastSelected, this`screen
      ensures moved == HasPrevious(old(State()))
      ensures var e := SelectPreviousEff(old(State()), position);
        State() == e.next && screen == old(screen) + e.ops && fault == e.fault
    {
      if selected > 0 {
        fault := SetSelected(selected - 1);
        return true, fault;
      }
      return false, None;
    }

    /** One pass of the run loop's switch. */
    method HandleKey(key: int) returns (fault: Option<Fault>)
      requires keys.Valid()
      modifies this`selected, this`lastSelected, this`screen
      ensures var e := KeyEff(old(State()), keys, position, key);
        State() == e.next && screen == old(screen) + e.ops && fault == e.fault
    {
      fault := None;
      if key == keys.left || key == keys.up {
        var moved;
        moved, fault := SelectPrevious();
        if !moved {
          screen := screen + [Bell];
        }
      } else if key == keys.right || key == keys.down {
        var moved;
        moved, fault := SelectNext();
        if !moved {
          screen := screen + [Bell];
        }
      } else if key == keys.tabulator || key == keys.enter {
      } else {
        screen := screen + [Bell];
      }
    }

    /** The terminal's `read`: the next key, or an IOException once the connection has none. */
    method ReadKey() returns (r: Result<int, Fault>)
      modifies this`input
      ensures old(input) == [] ==> r == Err(Closed) && input == []
      ensures old(input) != [] ==> r == Ok(old(input)[0]) && input == old(input)[1..]
    {
      if input == [] {
        return Err(Closed);
      }
      r := Ok(input[0]);
      input := input[1..];
    }

    /** `run`: draws the menu, then reads and handles keys until one ends the loop or an exception escapes. */
    method Run() returns (fault: Option<Fault>)
      requires keys.Valid()
      modifies this`selected, this`lastSelected, this`screen, this`input
      ensures var d := DrawEff(old(State()), position);
        d.fault.Some? ==> fault == d.fault && State() == old(State()) && input == old(input) && screen == old(screen)
      ensures var d := DrawEff(old(State()), position); var o := Session(old(State()), keys, position, old(input));
        d.fault.None? ==> State() == o.menu && screen == old(screen) + d.ops + o.ops && input == o.rest && fault == o.fault
    {
      fault := Draw();
      if fault.Some? {
        return;
      }
      ghost var total := Session(State(), keys, position, input);
      ghost var start := screen;
      ghost var echoed: seq<TermOp> := [];
      while true
        invariant screen == start + echoed
        invariant var o := Session(State(), keys, position, input);
          total == Outcome(o.menu, echoed + o.ops, o.rest, o.fault)
        decreases |input|
      {
        ghost var before := State();
        var r := ReadKey();
        if r.Err? {
          assert echoed + [] == echoed;
          return Some(r.error);
        }
        var key := r.value;
        fault := HandleKey(key);
        ghost var e := KeyEff(before, keys, position, key);
        ConcatAssoc(start, echoed, e.ops);
        if fault.Some? || key == keys.tabulator || key == keys.enter || key == -1 {
          echoed := echoed + e.ops;
          return;
        }
        ghost var o := Session(State(), keys, position, input);
        ConcatAssoc(echoed, e.ops, o.ops);
        echoed := echoed + e.ops;
      }
    }
  }

  // ---------------------------------------------------------------------
  // Properties

  /** Inserting an option at a valid index and removing the option at that index gives the list back. */
  lemma InsertThenRemove(options: seq<JString>, str: JString, index: int)
    ensures 0 <= index <= |options| ==> RemoveAt(InsertAt(options, str, index), index) == options
    ensures !(0 <= index <= |options|) ==> RemoveAt(InsertAt(options, str, index), |options|) == options
  {
    if 0 <= index <= |options| {
      var r := InsertAt(options, str, index);
      assert RemoveAt(r, index) == r[..index] + r[index + 1..];
      assert options == options[..index] + options[index..];
    }
  }

  /** Removing by text takes out one copy only: an option listed twice is still listed afterwards. */
  lemma RemoveTakesOneCopy(options: seq<JString>, str: JString)
    requires multiset(options)[str] >= 2
    ensures str in Remove(options, str)
  {
    assert str in options;
    assert multiset(Remove(options, str))[str] >= 1;
  }

  /**
   * LEFT and UP select the previous option and RIGHT and DOWN the next one;
   * at either end of the list the key rings the bell and changes nothing.
   * TAB and ENTER change nothing and end the loop; any other key rings the
   * bell, and only the key -1 then ends the loop.
   * A menu whose indices name options keeps them naming options, and its
   * repaint cannot throw.
   */
  lemma Navigation(m: Menu, k: KeyCodes, position: Option<Point>, key: int)
    requires k.Valid() && Valid(m)
    ensures var e := KeyEff(m, k, position, key);
      && e.fault.None? && Valid(e.next)
      && ((key == k.left || key == k.up) && m.selected > 0 ==>
            e.next == m.(selected := m.selected - 1, lastSelected := m.selected))
      && ((key == k.right || key == k.down) && m.selected < |m.options| - 1 ==>
            e.next == m.(selected := m.selected + 1, lastSelected := m.selected))
      && ((key == k.left || key == k.up) && m.selected == 0 ==> e == Effect(m, [Bell], None))
      && ((key == k.right || key == k.down) && m.selected == |m.options| - 1 ==> e == Effect(m, [Bell], None))
    ensures (key == k.tabulator || key == k.enter) ==> KeyEff(m, k, position, key) == Effect(m, [], None) && Ends(k, key)
    ensures key != k.left && key != k.up && key != k.right && key != k.down && key != k.tabulator && key != k.enter ==>
      KeyEff(m, k, position, key) == Effect(m, [Bell], None) && (Ends(k, key) <==> key == -1)
  {
    KeysDistinct(k);
  }

  /**
   * A run from a menu whose indices name options ends normally or when the
   * keys run out, with the indices still naming options.
   */
  lemma {:induction false} SessionKeepsValid(m: Menu, k: KeyCodes, position: Option<Point>, keys: seq<int>)
    requires k.Valid() && Valid(m)
    ensures var o := Session(m, k, position, keys);
      (o.fault.None? || o.fault == Some(Closed)) && Valid(o.menu)
    decreases |keys|
  {
    if keys != [] {
      Navigation(m, k, position, keys[0]);
      var e := KeyEff(m, k, position, keys[0]);
      if !Ends(k, keys[0]) {
        SessionKeepsValid(e.next, k, position, keys[1..]);
      }
    }
  }

  /**
   * `setSelected` as written accepts the index one past the last option:
   * the index is stored, then the repaint finds no option there and throws.
   */
  lemma SetSelectedPastEnd(m: Menu, position: Option<Point>)
    requires Valid(m)
    ensures var e := SetSelectedEff(m, position, |m.options|);
      e.fault == Some(NullPointer) && e.next.selected == |m.options| && !Valid(e.next)
  {
  }

  /** `setSelected` with the guard rejecting every index that names no option. */
  function SetSelectedCheckedEff(m: Menu, position: Option<Point>, index: int): (r: Effect)
    requires Valid(m)
    ensures r.fault.None? && Valid(r.next)
    ensures 0 <= index < |m.options| ==> r.next == m.(selected := index, lastSelected := m.selected)
    ensures !(0 <= index < |m.options|) ==> r == Effect(m, [], None)
  {
    if index < 0 || index >= |m.options| then Effect(m, [], None)
    else DrawEff(m.(selected := index, lastSelected := m.selected), position)
  }

}
