/**
 * The vocabulary shared by the key decoder, the shell line editor and the
 * toolkit components: Java characters, the terminal library's key codes,
 * the control bytes of ECMA-48 escape sequences, and the operations the
 * components issue to the terminal.
 */
module Terminal {

  /** A Java `char`: one UTF-16 code unit. */
  type CodeUnit = x: int | 0 <= x < 0x1_0000

  /** A Java `String` as its code units. */
  type JString = seq<CodeUnit>

  /** Java's `(char) c` cast: the low 16 bits of `c`. */
  function ToChar(c: int): (u: CodeUnit)
    ensures 0 <= c < 0x1_0000 ==> u == c
    ensures (u - c) % 0x1_0000 == 0
  {
    c % 0x1_0000
  }

  /** Java's 32-bit `int` arithmetic: the two's-complement value of `x` modulo 2^32. */
  function Wrap32(x: int): (r: int)
    ensures -0x8000_0000 <= r < 0x8000_0000
    ensures -0x8000_0000 <= x < 0x8000_0000 ==> r == x
    ensures (r - x) % 0x1_0000_0000 == 0
  {
    (x + 0x8000_0000) % 0x1_0000_0000 - 0x8000_0000
  }

  const MaxInt: int := 0x7fff_ffff

  // Bytes of escape sequences (ECMA-48 section 5.4: CSI is ESC followed by '[').
  const ESC: int := 27
  const LSB: int := 91         // '['
  const BS: int := 8           // backspace control character
  const FinalA: int := 65      // 'A': CUU, cursor up (ECMA-48 section 8.3.22)
  const FinalB: int := 66      // 'B': CUD, cursor down (section 8.3.19)
  const FinalC: int := 67      // 'C': CUF, cursor forward (section 8.3.20)
  const FinalD: int := 68      // 'D': CUB, cursor backward (section 8.3.18)
  const FinalP: int := 80      // 'P': DCH, delete character (section 8.3.26)
  const Tilde: int := 126      // '~': terminates the DEC VT220 "ESC [ 3 ~" Delete key
  const Space: CodeUnit := 32
  const Dot: CodeUnit := 46
  const Digit0: int := 48

  predicate IsDigit(c: int) { Digit0 <= c <= Digit0 + 9 }

  /**
   * The special key codes of the terminal library (its TerminalIO constants).
   * Their numeric values are not part of this model; what the components rely
   * on is that they are pairwise distinct and that all but ENTER lie above the
   * 0..256 range of plain characters (ENTER may be a control character, which
   * the shell forwards as the line terminator).
   */
  datatype KeyCodes = KeyCodes(
    up: int, down: int, right: int, left: int,
    enter: int, tabulator: int, delete: int, backspace: int,
    escape: int, handled: int, unrecognized: int, logoutRequest: int)
  {
    function All(): seq<int> {
      [up, down, right, left, enter, tabulator, delete, backspace,
       escape, handled, unrecognized, logoutRequest]
    }

    predicate Valid() {
      && (forall i :: 0 <= i < |All()| && All()[i] != enter ==> All()[i] > 256)
      && (forall i, j :: 0 <= i < j < |All()| ==> All()[i] != All()[j])
    }
  }

  /** What `Valid` says about the named keys, spelled out for the proofs that use them. */
  lemma KeysDistinct(k: KeyCodes)
    requires k.Valid()
    ensures k.up > 256 && k.down > 256 && k.right > 256 && k.left > 256
    ensures k.tabulator > 256 && k.delete > 256 && k.backspace > 256 && k.escape > 256
    ensures k.handled > 256 && k.unrecognized > 256 && k.logoutRequest > 256
    ensures k.up != k.down && k.up != k.right && k.up != k.left && k.up != k.enter && k.up != k.tabulator && k.up != k.delete && k.up != k.backspace && k.up != k.escape && k.up != k.handled && k.up != k.unrecognized && k.up != k.logoutRequest
    ensures k.down != k.right && k.down != k.left && k.down != k.enter && k.down != k.tabulator && k.down != k.delete && k.down != k.backspace && k.down != k.escape && k.down != k.handled && k.down != k.unrecognized && k.down != k.logoutRequest
    ensures k.right != k.left && k.right != k.enter && k.right != k.tabulator && k.right != k.delete && k.right != k.backspace && k.right != k.escape && k.right != k.handled && k.right != k.unrecognized && k.right != k.logoutRequest
    ensures k.left != k.enter && k.left != k.tabulator && k.left != k.delete && k.left != k.backspace && k.left != k.escape && k.left != k.handled && k.left != k.unrecognized && k.left != k.logoutRequest
    ensures k.enter != k.tabulator && k.enter != k.delete && k.enter != k.backspace && k.enter != k.escape && k.enter != k.handled && k.enter != k.unrecognized && k.enter != k.logoutRequest
    ensures k.tabulator != k.delete && k.tabulator != k.backspace && k.tabulator != k.escape && k.tabulator != k.handled && k.tabulator != k.unrecognized && k.tabulator != k.logoutRequest
    ensures k.delete != k.backspace && k.delete != k.escape && k.delete != k.handled && k.delete != k.unrecognized && k.delete != k.logoutRequest
    ensures k.backspace != k.escape && k.backspace != k.handled && k.backspace != k.unrecognized && k.backspace != k.logoutRequest
    ensures k.escape != k.handled && k.escape != k.unrecognized && k.escape != k.logoutRequest
    ensures k.handled != k.unrecognized && k.handled != k.logoutRequest
    ensures k.unrecognized != k.logoutRequest
  {
    var a := k.All();
    assert a[0] == k.up && a[1] == k.down && a[2] == k.right && a[3] == k.left;
    assert a[4] == k.enter && a[5] == k.tabulator && a[6] == k.delete && a[7] == k.backspace;
    assert a[8] == k.escape && a[9] == k.handled && a[10] == k.unrecognized && a[11] == k.logoutRequest;
  }

  /** What a component asks of the terminal, in the order it asks. */
  datatype TermOp =
    | Write(text: seq<int>)           // characters or raw bytes
    | MoveLeft(n: int)
    | MoveRight(n: int)
    | SetCursor(row: int, col: int)
    | Bell
    | NewLine                         // BasicTerminalIO.CRLF

  /** A Java `java.awt.Point`-like screen position of a toolkit component. */
  datatype Point = Point(row: int, col: int)

  /** `n` copies of `x`. */
  function Repeat<T>(x: T, n: nat): (r: seq<T>)
    ensures |r| == n && forall i :: 0 <= i < n ==> r[i] == x
  {
    if n == 0 then [] else Repeat(x, n - 1) + [x]
  }

  /** Regrouping a concatenation of three sequences, for the loops that append one step's output to the log so far. */
  lemma ConcatAssoc<T>(a: seq<T>, b: seq<T>, c: seq<T>)
    ensures a + b + c == a + (b + c)
  {
  }

}
