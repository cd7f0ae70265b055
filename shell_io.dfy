/**
 * The key decoder of the telnet shell (ShellIo): it reads raw values from the
 * connection, translates terminal control characters, turns ECMA-48 control
 * sequences `ESC [ digits final` into key codes, and keeps a 1024-slot store
 * of keys still to be delivered when a sequence carries a repeat count.
 *
 * The pure functions below say what one read does to the abstract input
 * (`Input`: the pending store and the rest of the wire); the class implements
 * the store as the source does, as an array with a position, and each of its
 * methods is proved to behave as the function says.
 */
module ShellIo {

  import opened Outcomes
  import opened Terminal
  import Text

  /** Number of slots of the pending key store. */
  const Capacity: int := 1024

  /**
   * What the next reads will see. `pending` is the key store, a stack whose
   * top is its last element; `wire` is what the connection has still to deliver.
   */
  datatype Input = Input(pending: seq<int>, wire: seq<int>) {
    function Size(): nat { |pending| + |wire| }
  }

  /** One value as `bufferedRead` delivers it, with the input that remains. */
  datatype Taken = Taken(value: int, rest: Input)

  /** `bufferedRead`: the most recently pushed pending key, else the next wire value. */
  function Next(inp: Input): (r: Result<Taken, Fault>)
    ensures r.Ok? ==> r.value.rest.Size() == inp.Size() - 1
    ensures r.Err? <==> inp == Input([], [])
    ensures r.Err? ==> r.error == Closed
    ensures |inp.pending| > 0 ==> r.Ok? && r.value.rest.wire == inp.wire
    ensures |inp.pending| > 0 ==> r.value.value == inp.pending[|inp.pending| - 1]
    ensures |inp.pending| > 0 ==> r.value.rest.pending == inp.pending[..|inp.pending| - 1]
    ensures |inp.pending| == 0 && |inp.wire| > 0 ==> r == Ok(Taken(inp.wire[0], Input([], inp.wire[1..])))
  {
    if |inp.pending| > 0 then
      Ok(Taken(inp.pending[|inp.pending| - 1], Input(inp.pending[..|inp.pending| - 1], inp.wire)))
    else if |inp.wire| > 0 then
      Ok(Taken(inp.wire[0], Input([], inp.wire[1..])))
    else
      Err(Closed)
  }

  /** The end of the digit loop: the first non-digit read, the count so far, and what remains. */
  datatype Scan = Scan(final: int, number: int, rest: Input)

  /** The digit loop of `handleEscapeSequence`, accumulating in 32-bit arithmetic. */
  function ScanDigits(inp: Input, number: int): Result<Scan, Fault>
    decreases inp.Size()
  {
    match Next(inp)
    case Err(e) => Err(e)
    case Ok(Taken(c, rest)) =>
      if IsDigit(c) then ScanDigits(rest, Wrap32(number * 10 + c - Digit0))
      else Ok(Scan(c, number, rest))
  }

  /** The outcome of one read: the key (or the exception), the input left, and whether a logout event fired. */
  datatype Decoded = Decoded(key: Result<int, Fault>, rest: Input, logout: bool)

  /** The key a motion or delete final byte stands for. */
  function FinalKey(k: KeyCodes, f: int): Option<int> {
    if f == FinalA then Some(k.up)
    else if f == FinalB then Some(k.down)
    else if f == FinalC then Some(k.right)
    else if f == FinalD then Some(k.left)
    else if f == FinalP then Some(k.delete)
    else None
  }

  /**
   * Push `count` copies of `key` (none when `count` is not positive) and
   * return `result`; when the store has no room, the push fails.
   */
  function PushThen(inp: Input, key: int, count: int, result: int): Decoded {
    if count <= 0 then Decoded(Ok(result), inp, false)
    else if |inp.pending| + count > Capacity then Decoded(Err(PendingOverflow), inp, false)
    else Decoded(Ok(result), Input(inp.pending + Repeat(key, count), inp.wire), false)
  }

  /** `handleEscapeSequence`: what follows an ESC. */
  function HandleEscape(inp: Input, k: KeyCodes): Decoded {
    match Next(inp)
    case Err(e) => Decoded(Err(e), inp, false)
    case Ok(Taken(c, rest)) =>
      if c != LSB then Decoded(Ok(k.unrecognized), rest, false)
      else
        match ScanDigits(rest, 0)
        case Err(e) => Decoded(Err(e), Input([], []), false)
        case Ok(Scan(f, number, rest')) => Dispatch(rest', k, f, number)
  }

  /** What `handleEscapeSequence` does with the final byte `f` and the count read before it. */
  function Dispatch(inp: Input, k: KeyCodes, f: int, number: int): Decoded {
    var n := if number == 0 then 1 else number;
    match FinalKey(k, f)
    case Some(key) => PushThen(inp, key, Wrap32(n - 1), key)
    case None =>
      if f == Tilde && n == 3 then PushThen(inp, k.delete, 1, k.unrecognized)
      else Decoded(Ok(k.unrecognized), inp, false)
  }

  /** `read`: one key for the line editor. */
  function ReadKey(inp: Input, k: KeyCodes, translate: int -> int): Decoded {
    match Next(inp)
    case Err(e) => Decoded(Err(e), inp, false)
    case Ok(Taken(raw, rest)) =>
      var i := translate(raw);
      if i == k.logoutRequest then Decoded(Ok(k.handled), rest, true)
      else if i > 256 && i == k.escape then HandleEscape(rest, k)
      else Decoded(Ok(i), rest, false)
  }

  /** One step of `ReadMany`: a successful read followed by the remaining reads. */
  lemma ReadManyStep(inp: Input, k: KeyCodes, translate: int -> int, n: nat)
    requires n > 0 && ReadKey(inp, k, translate).key.Ok?
    ensures var d := ReadKey(inp, k, translate);
      var tail := ReadMany(d.rest, k, translate, n - 1);
      ReadMany(inp, k, translate, n) == ([d.key.value] + tail.0, tail.1)
  {
  }

  /** `n` successive reads, stopping at the first exception. */
  function ReadMany(inp: Input, k: KeyCodes, translate: int -> int, n: nat): (seq<int>, Input)
    decreases n
  {
    if n == 0 then ([], inp)
    else
      var d := ReadKey(inp, k, translate);
      if d.key.Err? then ([], d.rest)
      else
        var (keys, rest) := ReadMany(d.rest, k, translate, n - 1);
        ([d.key.value] + keys, rest)
  }

  class ShellIo {
    const keys: KeyCodes
    /** The terminal's `translateControlCharacter`. */
    const translate: int -> int
    /** The pending key store; `buffer[..bufferPosition]` is in use. */
    const buffer: array<int>
    var bufferPosition: int
    /** What the connection has still to deliver. */
    var wire: seq<int>
    /** Logout request events fired to the connection so far. */
    var logoutEvents: nat

    ghost predicate Valid()
      reads this
    {
      buffer.Length == Capacity && 0 <= bufferPosition <= Capacity
    }

    function State(): Input
      reads this, buffer
      requires Valid()
    {
      Input(buffer[..bufferPosition], wire)
    }

    constructor (keys: KeyCodes, translate: int -> int, wire: seq<int>)
      ensures Valid() && fresh(buffer)
      ensures State() == Input([], wire) && logoutEvents == 0
      ensures this.keys == keys && this.translate == translate
    {
      this.keys := keys;
      this.translate := translate;
      this.wire := wire;
      buffer := new int[Capacity];
      bufferPosition := 0;
      logoutEvents := 0;
    }

    /** `putBuffer(c)`: push one key; the store must have a free slot. */
    method PutBuffer(c: int)
      requires Valid() && bufferPosition < Capacity
      modifies this`bufferPosition, buffer
      ensures Valid()
      ensures bufferPosition == old(bufferPosition) + 1
      ensures State() == Input(old(State()).pending + [c], wire)
    {
      buffer[bufferPosition] := c;
      bufferPosition := bufferPosition + 1;
      assert buffer[..bufferPosition] == old(buffer[..bufferPosition]) + [c];
    }

    /** `putBuffer(c, number)`: push `number` copies of `c` (none when `number` is not positive). */
    method PutBufferRepeated(c: int, number: int)
      requires Valid()
      requires number <= 0 || bufferPosition + number <= Capacity
      modifies this`bufferPosition, buffer
      ensures Valid()
      ensures State() == Input(old(State()).pending + Repeat(c, if number < 0 then 0 else number), wire)
    {
      var i := 0;
      while i < number
        invariant Valid()
        invariant 0 <= i && (number <= 0 ==> i == 0) && (number > 0 ==> i <= number)
        invariant bufferPosition == old(bufferPosition) + i
        invariant State() == Input(old(State()).pending + Repeat(c, i), wire)
      {
        PutBuffer(c);
        i := i + 1;
      }
    }

    /**
     * `bufferedRead`: pops the most recently pushed key while the store is not
     * empty, and reads the connection only when it is.
     */
    method BufferedRead() returns (r: Result<int, Fault>)
      requires Valid()
      modifies this`bufferPosition, this`wire
      ensures Valid()
      ensures old(bufferPosition) > 0 ==>
        r == Ok(old(buffer[bufferPosition - 1])) && bufferPosition == old(bufferPosition) - 1 && wire == old(wire)
      ensures old(bufferPosition) == 0 ==> bufferPosition == 0
      ensures old(bufferPosition) == 0 && old(wire) != [] ==> r == Ok(old(wire)[0]) && wire == old(wire)[1..]
      ensures old(bufferPosition) == 0 && old(wire) == [] ==> r == Err(Closed) && wire == []
      ensures Next(old(State())) == (if r.Ok? then Ok(Taken(r.value, State())) else Err(r.error))
    {
      if bufferPosition > 0 {
        ghost var before := buffer[..bufferPosition];
        bufferPosition := bufferPosition - 1;
        r := Ok(buffer[bufferPosition]);
        assert buffer[..bufferPosition] == before[..bufferPosition];
      } else if wire != [] {
        r := Ok(wire[0]);
        wire := wire[1..];
      } else {
        r := Err(Closed);
      }
    }

    /** `handleEscapeSequence`: decodes what follows an ESC. */
    method HandleEscapeSequence() returns (r: Result<int, Fault>)
      requires Valid()
      modifies this`bufferPosition, this`wire, buffer
      ensures Valid()
      ensures r == HandleEscape(old(State()), keys).key
      ensures State() == HandleEscape(old(State()), keys).rest
    {
      ghost var s0 := State();
      var c := BufferedRead();
      if c.Err? {
        return Err(c.error);
      }
      if c.value != LSB {
        return Ok(keys.unrecognized);
      }
      ghost var s1 := State();
      var number := 0;
      var final: int;
      while true
        invariant Valid()
        invariant ScanDigits(s1, 0) == ScanDigits(State(), number)
        decreases State().Size()
      {
        var d := BufferedRead();
        if d.Err? {
          return Err(d.error);
        }
        if IsDigit(d.value) {
          number := Wrap32(number * 10 + d.value - Digit0);
        } else {
          final := d.value;
          break;
        }
      }
      assert ScanDigits(s1, 0) == Ok(Scan(final, number, State()));
      r := DispatchFinal(final, number);
    }

    /** The part of `handleEscapeSequence` after the final byte: the key, and the copies pushed. */
    method DispatchFinal(final: int, number: int) returns (r: Result<int, Fault>)
      requires Valid()
      modifies this`bufferPosition, buffer
      ensures Valid()
      ensures r == Dispatch(old(State()), keys, final, number).key
      ensures State() == Dispatch(old(State()), keys, final, number).rest
    {
      var number := number;
      if number == 0 {
        number := 1;
      }
      if final == FinalA || final == FinalB || final == FinalC || final == FinalD || final == FinalP {
        var key := if final == FinalA then keys.up
          else if final == FinalB then keys.down
          else if final == FinalC then keys.right
          else if final == FinalD then keys.left
          else keys.delete;
        number := Wrap32(number - 1);
        if number > 0 && bufferPosition + number > Capacity {
          return Err(PendingOverflow);
        }
        PutBufferRepeated(key, number);
        return Ok(key);
      } else if final == Tilde {
        if number == 3 {
          if bufferPosition == Capacity {
            return Err(PendingOverflow);
          }
          PutBuffer(keys.delete);
        }
      }
      return Ok(keys.unrecognized);
    }

    /**
     * `read`: one key for the line editor. A translated logout request fires
     * one logout event and yields HANDLED; a translated ESC starts an escape
     * sequence; every other value is returned as translated.
     */
    method Read() returns (r: Result<int, Fault>)
      requires Valid()
      modifies this`bufferPosition, this`wire, buffer, this`logoutEvents
      ensures Valid()
      ensures r == ReadKey(old(State()), keys, translate).key
      ensures State() == ReadKey(old(State()), keys, translate).rest
      ensures logoutEvents == old(logoutEvents) + if ReadKey(old(State()), keys, translate).logout then 1 else 0
    {
      var raw := BufferedRead();
      if raw.Err? {
        return Err(raw.error);
      }
      var i := translate(raw.value);
      if i == keys.logoutRequest {
        logoutEvents := logoutEvents + 1;
        r := Ok(keys.handled);
      } else if i > 256 && i == keys.escape {
        r := HandleEscapeSequence();
      } else {
        r := Ok(i);
      }
    }
  }

  // ---------------------------------------------------------------------
  // Progress: every successful read consumes input

  /** Every pending value is a key code above the character range; only such keys are ever pushed. */
  predicate KeysPending(inp: Input) {
    forall i :: 0 <= i < |inp.pending| ==> inp.pending[i] > 256
  }

  /** `a` is strictly less input than `b`: a shorter wire, or as long a wire and fewer pending keys. */
  predicate Below(a: Input, b: Input) {
    |a.wire| < |b.wire| || (|a.wire| == |b.wire| && |a.pending| < |b.pending|)
  }

  /** A value taken without shortening the wire came from the store, so it is a key code. */
  lemma NextProgress(inp: Input)
    requires Next(inp).Ok?
    ensures var t := Next(inp).value;
      && Below(t.rest, inp)
      && (KeysPending(inp) ==> KeysPending(t.rest))
      && (KeysPending(inp) && |t.rest.wire| == |inp.wire| ==> t.value > 256)
  {
  }

  lemma {:induction false} ScanProgress(inp: Input, number: int)
    requires KeysPending(inp)
    ensures ScanDigits(inp, number).Ok? ==>
      |ScanDigits(inp, number).value.rest.wire| <= |inp.wire| && KeysPending(ScanDigits(inp, number).value.rest)
    decreases inp.Size()
  {
    if Next(inp).Ok? {
      NextProgress(inp);
      var t := Next(inp).value;
      if IsDigit(t.value) {
        ScanProgress(t.rest, Wrap32(number * 10 + t.value - Digit0));
      }
    }
  }

  /** The final byte's action pushes only key codes and reads nothing. */
  lemma DispatchProgress(inp: Input, k: KeyCodes, f: int, number: int)
    requires k.Valid() && KeysPending(inp)
    ensures var d := Dispatch(inp, k, f, number);
      d.key.Ok? ==> d.rest.wire == inp.wire && KeysPending(d.rest)
  {
    assert k.All()[0] == k.up && k.All()[1] == k.down && k.All()[2] == k.right && k.All()[3] == k.left;
    assert k.All()[4] == k.enter && k.All()[6] == k.delete;
  }

  /** An escape sequence that does not throw leaves strictly less input. */
  lemma HandleEscapeProgress(inp: Input, k: KeyCodes)
    requires k.Valid() && KeysPending(inp)
    ensures var d := HandleEscape(inp, k);
      d.key.Ok? ==> Below(d.rest, inp) && KeysPending(d.rest)
  {
    if Next(inp).Ok? {
      NextProgress(inp);
      var u := Next(inp).value;
      if u.value == LSB {
        ScanProgress(u.rest, 0);
        match ScanDigits(u.rest, 0)
        case Err(_) =>
        case Ok(Scan(f, number, rest')) =>
          DispatchProgress(rest', k, f, number);
      }
    }
  }

  /**
   * A read that does not throw leaves strictly less input, and the store
   * still holds only key codes. This is what ends the shell's input loop
   * once the connection has nothing more to deliver.
   */
  lemma ReadKeyProgress(inp: Input, k: KeyCodes, translate: int -> int)
    requires k.Valid() && KeysPending(inp)
    ensures var d := ReadKey(inp, k, translate);
      d.key.Ok? ==> Below(d.rest, inp) && KeysPending(d.rest)
  {
    if Next(inp).Ok? {
      NextProgress(inp);
      var t := Next(inp).value;
      var i := translate(t.value);
      if i != k.logoutRequest && i > 256 && i == k.escape {
        HandleEscapeProgress(t.rest, k);
      }
    }
  }

  // ---------------------------------------------------------------------
  // Properties of the decoder

  /** The digits after `ESC [` accumulate to their decimal value while it fits in an `int`. */
  lemma {:induction false} ScanDecimal(ds: seq<int>, acc: int, f: int, rest: seq<int>)
    requires forall i :: 0 <= i < |ds| ==> IsDigit(ds[i])
    requires !IsDigit(f)
    requires 0 <= acc && Text.ParseDecimalFrom(acc, ds) <= MaxInt
    ensures ScanDigits(Input([], ds + [f] + rest), acc) == Ok(Scan(f, Text.ParseDecimalFrom(acc, ds), Input([], rest)))
    decreases |ds|
  {
    var inp := Input([], ds + [f] + rest);
    if ds == [] {
      assert inp.wire[1..] == rest;
    } else {
      var acc' := acc * 10 + ds[0] - Digit0;
      Text.ParseDecimalFromGrows(acc', ds[1..]);
      assert inp.wire[1..] == ds[1..] + [f] + rest;
      ScanDecimal(ds[1..], acc', f, rest);
    }
  }

  /**
   * `ESC [ digits final` with a motion or delete final byte and count N
   * (no digits or 0 meaning 1) yields the final's key at once and pushes
   * exactly N - 1 more copies of it, reading nothing beyond the final byte.
   */
  lemma RepeatCountPushes(k: KeyCodes, translate: int -> int, esc: int, ds: seq<int>, f: int, rest: seq<int>)
    requires translate(esc) == k.escape && k.escape > 256 && k.logoutRequest != k.escape
    requires forall i :: 0 <= i < |ds| ==> IsDigit(ds[i])
    requires Text.ParseDecimal(ds) <= MaxInt
    requires FinalKey(k, f).Some?
    requires RepeatCount(ds) - 1 <= Capacity
    ensures ReadKey(Input([], [esc, LSB] + ds + [f] + rest), k, translate)
         == Decoded(Ok(FinalKey(k, f).value), Input(Repeat(FinalKey(k, f).value, RepeatCount(ds) - 1), rest), false)
  {
    var w := [esc, LSB] + ds + [f] + rest;
    assert w[1..] == [LSB] + ds + [f] + rest;
    assert w[1..][1..] == ds + [f] + rest;
    assert !IsDigit(f);
    ScanDecimal(ds, 0, f, rest);
    Text.ParseDecimalFromGrows(0, ds);
  }

  /** The count a run of digits stands for: its value, or 1 when it is empty or zero. */
  function RepeatCount(ds: seq<int>): (r: int)
    requires forall i :: 0 <= i < |ds| ==> IsDigit(ds[i])
    ensures r >= 1
  {
    Text.ParseDecimalFromGrows(0, ds);
    var n := Text.ParseDecimal(ds);
    if n == 0 then 1 else n
  }

  /** With copies of a key pending, each read delivers one of them and leaves the wire alone. */
  lemma {:induction false} PendingRepeatsDrain(k: KeyCodes, translate: int -> int, key: int, m: nat, w: seq<int>)
    requires translate(key) == key && key != k.logoutRequest && key != k.escape
    ensures ReadMany(Input(Repeat(key, m), w), k, translate, m) == (Repeat(key, m), Input([], w))
    decreases m
  {
    if m > 0 {
      var inp := Input(Repeat(key, m), w);
      assert Repeat(key, m)[..m - 1] == Repeat(key, m - 1);
      assert ReadKey(inp, k, translate) == Decoded(Ok(key), Input(Repeat(key, m - 1), w), false);
      PendingRepeatsDrain(k, translate, key, m - 1, w);
      assert [key] + Repeat(key, m - 1) == Repeat(key, m) by {
        RepeatConsFront(key, m);
      }
    }
  }

  lemma {:induction false} RepeatConsFront<T>(x: T, m: nat)
    requires m > 0
    ensures [x] + Repeat(x, m - 1) == Repeat(x, m)
  {
    if m > 1 {
      RepeatConsFront(x, m - 1);
      assert [x] + Repeat(x, m - 1) == ([x] + Repeat(x, m - 2)) + [x];
    }
  }

  /**
   * A motion or delete sequence with count N, read N times, gives the same
   * key N times; the next read takes up the wire right after the final byte.
   */
  lemma RepeatCountExpands(k: KeyCodes, translate: int -> int, esc: int, ds: seq<int>, f: int, rest: seq<int>)
    requires translate(esc) == k.escape && k.escape > 256 && k.logoutRequest != k.escape
    requires forall i :: 0 <= i < |ds| ==> IsDigit(ds[i])
    requires Text.ParseDecimal(ds) <= MaxInt
    requires FinalKey(k, f).Some?
    requires var key := FinalKey(k, f).value; translate(key) == key && key != k.logoutRequest && key != k.escape
    requires RepeatCount(ds) - 1 <= Capacity
    ensures var key := FinalKey(k, f).value;
      ReadMany(Input([], [esc, LSB] + ds + [f] + rest), k, translate, RepeatCount(ds))
        == (Repeat(key, RepeatCount(ds)), Input([], rest))
  {
    var key := FinalKey(k, f).value;
    var n := RepeatCount(ds);
    RepeatCountPushes(k, translate, esc, ds, f, rest);
    PendingRepeatsDrain(k, translate, key, n - 1, rest);
    ReadManyCons(Input([], [esc, LSB] + ds + [f] + rest), k, translate, n, key,
      Input(Repeat(key, n - 1), rest), Repeat(key, n - 1), Input([], rest));
    RepeatConsFront(key, n);
  }

  /** A successful first read followed by the remaining reads. */
  lemma ReadManyCons(inp: Input, k: KeyCodes, translate: int -> int, n: nat, key: int,
                     mid: Input, tail: seq<int>, last: Input)
    requires n > 0 && ReadKey(inp, k, translate) == Decoded(Ok(key), mid, false)
    requires ReadMany(mid, k, translate, n - 1) == (tail, last)
    ensures ReadMany(inp, k, translate, n) == ([key] + tail, last)
  {
    ReadManyStep(inp, k, translate, n);
  }

  /**
   * `ESC [ 3 ~` (the VT220 Delete key) yields UNRECOGNIZED and leaves exactly
   * one DELETE pending, because its case falls through to the default.
   */
  lemma TildeDeleteFallsThrough(k: KeyCodes, translate: int -> int, esc: int, rest: seq<int>)
    requires k.Valid() && translate(esc) == k.escape
    requires translate(k.delete) == k.delete
    ensures ReadKey(Input([], [esc, LSB, Digit0 + 3, Tilde] + rest), k, translate)
         == Decoded(Ok(k.unrecognized), Input([k.delete], rest), false)
    ensures ReadMany(Input([], [esc, LSB, Digit0 + 3, Tilde] + rest), k, translate, 2)
         == ([k.unrecognized, k.delete], Input([], rest))
  {
    assert k.All()[8] == k.escape && k.All()[11] == k.logoutRequest && k.All()[6] == k.delete && k.All()[4] == k.enter;
    var w := [esc, LSB, Digit0 + 3, Tilde] + rest;
    assert w[1..][1..] == [Digit0 + 3] + [Tilde] + rest;
    assert Text.ParseDecimalFrom(0, [Digit0 + 3]) == 3;
    ScanDecimal([Digit0 + 3], 0, Tilde, rest);
    assert ReadKey(Input([], w), k, translate) == Decoded(Ok(k.unrecognized), Input([k.delete], rest), false);
    assert ReadKey(Input([k.delete], rest), k, translate) == Decoded(Ok(k.delete), Input([], rest), false);
    ReadManyStep(Input([], w), k, translate, 2);
    ReadManyStep(Input([k.delete], rest), k, translate, 1);
    assert ReadMany(Input([], rest), k, translate, 0) == ([], Input([], rest));
    assert [k.unrecognized] + ([k.delete] + []) == [k.unrecognized, k.delete];
  }

  /** ESC followed by anything but `[` yields UNRECOGNIZED and pushes nothing. */
  lemma EscapeWithoutBracket(k: KeyCodes, translate: int -> int, esc: int, c: int, rest: seq<int>)
    requires translate(esc) == k.escape && k.escape > 256 && k.logoutRequest != k.escape
    requires c != LSB
    ensures ReadKey(Input([], [esc, c] + rest), k, translate) == Decoded(Ok(k.unrecognized), Input([], rest), false)
  {
    assert ([esc, c] + rest)[1..][1..] == rest;
  }

  /** Any other final byte yields UNRECOGNIZED and pushes nothing. */
  lemma UnknownFinalPushesNothing(k: KeyCodes, translate: int -> int, esc: int, ds: seq<int>, f: int, rest: seq<int>)
    requires translate(esc) == k.escape && k.escape > 256 && k.logoutRequest != k.escape
    requires forall i :: 0 <= i < |ds| ==> IsDigit(ds[i])
    requires Text.ParseDecimal(ds) <= MaxInt
    requires !IsDigit(f) && FinalKey(k, f).None? && !(f == Tilde && RepeatCount(ds) == 3)
    ensures ReadKey(Input([], [esc, LSB] + ds + [f] + rest), k, translate)
         == Decoded(Ok(k.unrecognized), Input([], rest), false)
  {
    var w := [esc, LSB] + ds + [f] + rest;
    assert w[1..][1..] == ds + [f] + rest;
    ScanDecimal(ds, 0, f, rest);
    Text.ParseDecimalFromGrows(0, ds);
  }

  /**
   * A read never hands LOGOUTREQUEST to the editor: a translated logout
   * request fires the event and yields HANDLED, and that is the only way an
   * event fires.
   */
  lemma LogoutIsHandled(inp: Input, k: KeyCodes, translate: int -> int)
    requires k.Valid()
    ensures var d := ReadKey(inp, k, translate);
      && d.key != Ok(k.logoutRequest)
      && (d.logout <==> Next(inp).Ok? && translate(Next(inp).value.value) == k.logoutRequest)
      && (d.logout ==> d.key == Ok(k.handled) && d.rest == Next(inp).value.rest)
  {
    assert k.All()[0] == k.up && k.All()[1] == k.down && k.All()[2] == k.right && k.All()[3] == k.left;
    assert k.All()[6] == k.delete && k.All()[9] == k.handled && k.All()[10] == k.unrecognized;
    assert k.All()[11] == k.logoutRequest && k.All()[4] == k.enter;
    var d := ReadKey(inp, k, translate);
    match Next(inp)
    case Err(_) =>
    case Ok(Taken(raw, rest)) =>
      var i := translate(raw);
      if i != k.logoutRequest && i > 256 && i == k.escape {
        HandleEscapeKeys(rest, k);
        assert k.logoutRequest !in {k.up, k.down, k.right, k.left, k.delete, k.unrecognized};
      }
  }

  /** The keys an escape sequence can yield. */
  lemma HandleEscapeKeys(inp: Input, k: KeyCodes)
    ensures var d := HandleEscape(inp, k);
      d.key.Ok? ==> d.key.value in {k.up, k.down, k.right, k.left, k.delete, k.unrecognized}
  {
    match Next(inp)
    case Err(_) =>
    case Ok(Taken(c, rest)) =>
      if c == LSB {
        match ScanDigits(rest, 0)
        case Err(_) =>
        case Ok(Scan(f, number, rest')) =>
          match FinalKey(k, f)
          case Some(key) =>
            assert key in {k.up, k.down, k.right, k.left, k.delete};
          case None =>
      }
  }

  /** A value read that is neither ESCAPE nor LOGOUTREQUEST after translation is returned as translated, with nothing pushed. */
  lemma OtherValuesPassThrough(inp: Input, k: KeyCodes, translate: int -> int)
    requires Next(inp).Ok?
    requires var i := translate(Next(inp).value.value); i != k.escape && i != k.logoutRequest
    ensures ReadKey(inp, k, translate) == Decoded(Ok(translate(Next(inp).value.value)), Next(inp).value.rest, false)
  {
  }

}
