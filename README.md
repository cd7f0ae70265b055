# bTelnetd core, modelled in Dafny

bTelnetd bridges a remote telnet terminal to a local shell process. It has
two halves, plus three smaller pieces.

The first half is the key decoder (`ShellIo`). It reads raw values from the
connection and translates control characters. It turns ECMA-48 control
sequences `ESC [ n final` into the terminal's key codes, and delivers the
repeats such a sequence asks for from a 1024-slot store of pending keys.

The second half is the line editor of the shell bridge (`PwtsShell`). Its
input thread turns keys into:

- edits of a line buffer,
- terminal echo (ICH and DCH sequences, backspaces, cursor motion),
- a command history recalled with UP and DOWN,
- on ENTER, the line and the ENTER byte on the shell's standard input.

The shell bridge also picks the system shell from the operating system's
name, and joins the command line for its log.

The three smaller pieces are:

- the terminal toolkit's `Editfield` (a bounded one-line input field) and
  `Selection` (a one-of-many chooser);
- the welcome banner's right-aligned ASCII picture (`Welcome`);
- the connection filter's allow-list check (`telnetFilter.isAllowed`).

## Layout

| file | module | what it holds |
|---|---|---|
| `outcomes.dfy` | `Outcomes` | `Option`, `Result` and the exceptions the code throws (`Fault`) |
| `terminal.dfy` | `Terminal` | Java `char` and `int` arithmetic, the terminal's key codes, terminal operations |
| `text.dfy` | `Text` | `indexOf`, `toLowerCase`, `split`, joining, decimal text |
| `shell_io.dfy` | `ShellIo` | the key decoder: pure functions, and the class over its 1024-slot array |
| `pwts_shell.dfy` | `PwtsShell` | the line editor, its echo model, the input loop as a class, shell choice, argument join |
| `editfield.dfy` | `Editfield` | the edit field, its key loop, a model of the terminal row it paints |
| `selection.dfy` | `Selection` | the chooser, its key loop and repaint |
| `welcome.dfy` | `Welcome` | maximum line length, the doubling space buffer, the aligned picture |
| `telnet_filter.dfy` | `TelnetFilter` | the allow-list check |

Each imperative class follows the same pattern:

- Its methods (`ShellIo.ShellIo`, `PwtsShell.InputGobbler`,
  `Editfield.Editfield`, `Selection.Selection`, `Welcome.SpaceCache`) keep the
  source's fields and loops.
- Each method is proved to match a pure function: the new state, what it
  writes, and the exception it throws.
- The properties are then proved as lemmas about those functions.

Two small terminal models give the echo a meaning. `PwtsShell.Line` and
`Editfield.Row` say what a terminal row holds after a sequence of writes,
moves and deletions. For the shell's line editor, the lemmas prove that the
echo keeps the terminal row equal to the editor's buffer and cursor
(`PwtsShell.EchoTracksBuffer`). For `Editfield`, they prove less: the row
starts with the buffer, as dots in a password field, and the terminal cursor
sits on the field's cursor (`Editfield.Shows`). Cells after the buffer may
still hold old text between repaints. `Editfield.DrawRepaints` shows that a
repaint writes blanks over the cells a longer previous text used.

Keys are the terminal's integer key codes. Their numeric values come from
`BasicTerminalIO`, which is not part of this model. They are therefore a
record `KeyCodes` whose assumption is `Valid()`: every key but ENTER lies
above 256, and the keys are pairwise distinct. The Editfield lemmas also
assume `Editfield.SwitchKeys`: ENTER is none of -1, -2000 and -2001, the
values the field's key switch handles before it looks at the key codes.

## Model

| member | source | states |
|---|---|---|
| ShellIo.Next | src/com/meyling/telnet/shell/ShellIo.java:104-116 | the most recently pushed pending key is read first, leaving the rest of the store and the wire; otherwise the first wire value, leaving the rest of the wire; each read consumes exactly one value; an empty store and an exhausted wire throw (connection closed) |
| ShellIo.ShellIo.constructor | src/com/meyling/telnet/shell/ShellIo.java:54-75 | a new decoder has an empty key store and the whole wire still to read |
| ShellIo.ShellIo.PutBuffer | src/com/meyling/telnet/shell/ShellIo.java:82-84 | pushes one key on top of the store; the position grows by one, the wire is untouched |
| ShellIo.ShellIo.PutBufferRepeated | src/com/meyling/telnet/shell/ShellIo.java:92-96 | pushes `number` copies of the key, none when `number` is not positive |
| ShellIo.ShellIo.BufferedRead | src/com/meyling/telnet/shell/ShellIo.java:104-116 | pops the top of a non-empty store without touching the wire, otherwise takes the first wire value, otherwise throws; agrees with `Next` |
| ShellIo.ShellIo.HandleEscapeSequence | src/com/meyling/telnet/shell/ShellIo.java:156-206 | the key returned and the input left are those of the pure `HandleEscape` |
| ShellIo.ShellIo.DispatchFinal | src/com/meyling/telnet/shell/ShellIo.java:168-203 | the switch on the final byte returns the key and pushes the repeats exactly as `Dispatch` says |
| ShellIo.ShellIo.Read | src/com/meyling/telnet/shell/ShellIo.java:118-141 | key and remaining input as `ReadKey`; the logout-event count grows by one exactly when a logout request was read |
| ShellIo.ReadKeyProgress | src/com/meyling/telnet/shell/ShellIo.java:118-141 | every successful read leaves strictly less input (a shorter wire, or the same wire and fewer pending keys), and the store holds only key codes |
| ShellIo.HandleEscapeProgress | src/com/meyling/telnet/shell/ShellIo.java:156-206 | the escape handler consumes input and pushes only key codes, so reading always terminates |
| ShellIo.ScanDecimal | src/com/meyling/telnet/shell/ShellIo.java:159-167 | the digit loop reads a run of digits as its decimal value and stops at the first non-digit, which it consumes |
| ShellIo.RepeatCountPushes | src/com/meyling/telnet/shell/ShellIo.java:174-196 | `ESC [ N A/B/C/D/P` returns the key and leaves N-1 copies of it pending (N absent or 0 meaning 1); the wire resumes after the final byte |
| ShellIo.RepeatCountExpands | src/com/meyling/telnet/shell/ShellIo.java:168-196 | N reads of `ESC [ N final` deliver the key N times, then the input right after the sequence |
| ShellIo.PendingRepeatsDrain | src/com/meyling/telnet/shell/ShellIo.java:106-108 | pending copies are delivered one per read and the wire is left alone |
| ShellIo.TildeDeleteFallsThrough | src/com/meyling/telnet/shell/ShellIo.java:197-206 | `ESC [ 3 ~` returns UNRECOGNIZED and pushes one DELETE, so two reads give UNRECOGNIZED then DELETE |
| ShellIo.EscapeWithoutBracket | src/com/meyling/telnet/shell/ShellIo.java:156-206 | ESC followed by anything but `[` returns UNRECOGNIZED, having consumed that value and pushed nothing |
| ShellIo.UnknownFinalPushesNothing | src/com/meyling/telnet/shell/ShellIo.java:201-206 | any other final byte returns UNRECOGNIZED and pushes nothing |
| ShellIo.LogoutIsHandled | src/com/meyling/telnet/shell/ShellIo.java:127-131 | `read` never returns LOGOUTREQUEST; the logout event fires exactly when the translated value is LOGOUTREQUEST, and HANDLED is returned then |
| ShellIo.HandleEscapeKeys | src/com/meyling/telnet/shell/ShellIo.java:174-206 | the escape handler returns only UP, DOWN, RIGHT, LEFT, DELETE or UNRECOGNIZED |
| ShellIo.OtherValuesPassThrough | src/com/meyling/telnet/shell/ShellIo.java:118-141 | a translated value that is neither ESCAPE nor LOGOUTREQUEST is returned unchanged after one value is consumed |
| PwtsShell.DeleteCharsCount | src/com/meyling/telnet/shell/PwtsShell.java:556-565 | a terminal reading `deleteChars(n)` (`ESC [ n P`) deletes exactly n characters, for every n >= 1 |
| PwtsShell.DeleteCharCount | src/com/meyling/telnet/shell/PwtsShell.java:68-71 | the `deleteChar` constant is a one-character DCH |
| PwtsShell.Step | src/com/meyling/telnet/shell/PwtsShell.java:444-541 | one key keeps the cursor inside the line and the history index on an entry (or -1 with no history); only ENTER changes the history, appending the line, and sends the line and the ENTER byte to the shell |
| PwtsShell.ErasingKeys | src/com/meyling/telnet/shell/PwtsShell.java:445-461 | DELETE removes the character at the cursor and BACKSPACE the one before it (the cursor moving back), every other character kept in order; at the end of the line (DELETE) or its start (BACKSPACE) nothing changes |
| PwtsShell.MovingKeys | src/com/meyling/telnet/shell/PwtsShell.java:462-476 | LEFT and RIGHT move the cursor by one inside the line and change nothing at its ends |
| PwtsShell.TypedKeys | src/com/meyling/telnet/shell/PwtsShell.java:531-540 | a key below 256 that is no editing key inserts its character at the cursor and advances it, the rest of the line and the history unchanged; any other unknown key changes nothing |
| PwtsShell.HistoryKeys | src/com/meyling/telnet/shell/PwtsShell.java:477-530 | ENTER empties the line and appends it to the history, selecting the new entry; with a history, UP and DOWN show the selected entry with the cursor at its end and step the index back or forward, clamped to the history; with none they change nothing |
| PwtsShell.InsertThenBackspace | src/com/meyling/telnet/shell/PwtsShell.java:452-537 | a typed character followed by BACKSPACE restores the editor exactly |
| PwtsShell.EnterThenUpRecalls | src/com/meyling/telnet/shell/PwtsShell.java:477-530 | ENTER then UP brings back the line just entered, with the cursor at its end |
| PwtsShell.BackDelete | src/com/meyling/telnet/shell/PwtsShell.java:452-461 | BS then DCH removes the character left of the terminal cursor |
| PwtsShell.BackDeletesErase | src/com/meyling/telnet/shell/PwtsShell.java:486-489 | n pairs of BS and DCH at the end of the line erase its last n characters |
| PwtsShell.DeleteToEnd | src/com/meyling/telnet/shell/PwtsShell.java:480-485 | `deleteChars(length - cursor)` removes everything right of the cursor |
| PwtsShell.EraseClearsLine | src/com/meyling/telnet/shell/PwtsShell.java:480-489 | the erasure written before a history entry is shown empties the terminal line, wherever the cursor was |
| PwtsShell.EchoInsert | src/com/meyling/telnet/shell/PwtsShell.java:531-537 | ICH then the character puts it before the cursor and advances the cursor |
| PwtsShell.EchoDelete | src/com/meyling/telnet/shell/PwtsShell.java:445-451 | DCH removes the character at the terminal cursor |
| PwtsShell.EchoRecall | src/com/meyling/telnet/shell/PwtsShell.java:477-519 | erasing and then writing a history entry leaves exactly that entry on the line, cursor at its end |
| PwtsShell.EchoTracksBuffer | src/com/meyling/telnet/shell/PwtsShell.java:444-541 | for every key that is ENTER, at least 256 or a printable character, starting from a printable line and history, the terminal line after the echo equals the editor's new buffer and cursor (printable text), and stays printable |
| PwtsShell.Replay | src/com/meyling/telnet/shell/PwtsShell.java:439-542 | any run of keys keeps the editor invariant |
| PwtsShell.ReplayAppend | src/com/meyling/telnet/shell/PwtsShell.java:439-542 | replaying two runs of keys is replaying the first, then the second |
| PwtsShell.TypeLine | src/com/meyling/telnet/shell/PwtsShell.java:531-537 | printable characters typed at the end of the line are appended in order, cursor at the end |
| PwtsShell.ReplayLineEntered | src/com/meyling/telnet/shell/PwtsShell.java:520-537 | typing a line on an empty buffer and pressing ENTER adds it to the history and selects it |
| PwtsShell.TwoLinesEntered | src/com/meyling/telnet/shell/PwtsShell.java:520-530 | `x ENTER y ENTER` from the start leaves an empty line, history `[x, y]`, index 1 |
| PwtsShell.HistoryWalk | src/com/meyling/telnet/shell/PwtsShell.java:477-519 | with history `[x, y]`: UP shows y, UP shows x, a third UP stays at x; then DOWN shows x again and a second DOWN shows y |
| PwtsShell.SessionSendsHistory | src/com/meyling/telnet/shell/PwtsShell.java:429-548 | over a whole session the history only grows, and the shell receives exactly each newly entered line followed by the ENTER byte |
| PwtsShell.InputGobbler.constructor | src/com/meyling/telnet/shell/PwtsShell.java:431-438 | empty line, cursor 0, no history, index -1 |
| PwtsShell.InputGobbler.Erase | src/com/meyling/telnet/shell/PwtsShell.java:480-489 | writes DCH for the text right of the cursor, then BS and DCH for each character left of it |
| PwtsShell.InputGobbler.ShowEntry | src/com/meyling/telnet/shell/PwtsShell.java:490-497 | replaces the line by the selected entry, cursor at its end, and moves the index as `Recall` says |
| PwtsShell.InputGobbler.HandleKey | src/com/meyling/telnet/shell/PwtsShell.java:444-541 | state, echo and shell input change exactly as `Step` says |
| PwtsShell.InputGobbler.Pass | src/com/meyling/telnet/shell/PwtsShell.java:439-541 | one read and its key: a failed read changes nothing in the editor; otherwise the editor changes as `Step` says |
| PwtsShell.InputGobbler.Run | src/com/meyling/telnet/shell/PwtsShell.java:429-548 | the input thread ends as `Session` says: the editor, echo, shell input, remaining input and ending exception |
| PwtsShell.ShellCommandChoice | src/com/meyling/telnet/shell/PwtsShell.java:154-171 | COMMAND.COM exactly for names containing "windows 9", CMD.EXE exactly for other names containing "windows", `/bin/sh` exactly otherwise (case-insensitive) |
| PwtsShell.JoinArguments | src/com/meyling/telnet/shell/PwtsShell.java:243-249 | the arguments joined with single spaces |
| Text.IndexOf | src/com/meyling/telnet/shell/PwtsShell.java:158-159 | the first index where the text occurs, or -1 exactly when it occurs nowhere |
| Text.ContainsPrefix | src/com/meyling/telnet/shell/PwtsShell.java:158-159 | a name containing "windows 9" contains "windows", so the nested test is reachable |
| Text.LowerAscii | src/com/meyling/telnet/shell/PwtsShell.java:157 | each ASCII capital becomes its lower-case letter; every other character is kept |
| Text.ParseDigits | src/com/meyling/telnet/shell/PwtsShell.java:560 | the decimal text appended for a count reads back as that count |
| Text.FieldsOfJoin | src/net/gamerservices/telnetd/telnetFilter.java:25 | splitting comma-joined entries that hold no comma gives the entries back |
| Text.SplitKeepsNonEmptyFields | src/net/gamerservices/telnetd/telnetFilter.java:25 | dropping trailing empty strings from a split never loses a non-empty field |
| Text.DropTrailingEmpty | src/net/gamerservices/telnetd/telnetFilter.java:25 | the result is a prefix of the parts, everything removed is empty, and it does not end in an empty part |
| Editfield.MoveRightEff | src/net/wimpi/telnetd/io/toolkit/Editfield.java:367-376 | the cursor advances by one and the terminal cursor moves right by one when it is before the end of the buffer; otherwise only the bell rings; the buffer is untouched |
| Editfield.MoveLeftEff | src/net/wimpi/telnetd/io/toolkit/Editfield.java:378-387 | the cursor goes back by one and the terminal cursor moves left by one when above 0; otherwise only the bell rings; the buffer is untouched |
| Editfield.AppendEff | src/net/wimpi/telnetd/io/toolkit/Editfield.java:175-190 | with room, the character is appended and the cursor advances; a full buffer throws BufferOverflow and keeps text and cursor |
| Editfield.AppendStringEff | src/net/wimpi/telnetd/io/toolkit/Editfield.java:192-213 | with room for all of it, the string is appended and the cursor advances by its length; otherwise BufferOverflow with text, cursor and terminal unchanged; in both cases the previous size is recorded first |
| Editfield.InsertEff | src/net/wimpi/telnetd/io/toolkit/Editfield.java:130-143 | the character is inserted at `pos`; a cursor at or after `pos` moves with its character; a full buffer or a bad position throws |
| Editfield.SetCharEff | src/net/wimpi/telnetd/io/toolkit/Editfield.java:119-128 | the character at `pos` is overwritten and nothing else changes; a position outside the buffer throws |
| Editfield.RemoveEff | src/net/wimpi/telnetd/io/toolkit/Editfield.java:145-157 | the character at `pos` is removed; a cursor after it moves back; a bad position throws with text, cursor and terminal unchanged; in both cases the previous size is recorded first |
| Editfield.Masked | src/net/wimpi/telnetd/io/toolkit/Editfield.java:338-344 | a password field shows one dot per character, any other field its text |
| Editfield.DrawText | src/net/wimpi/telnetd/io/toolkit/Editfield.java:336-353 | the repaint text is the (masked) buffer followed by blanks up to the previous size |
| Editfield.Editfield.constructor | src/net/wimpi/telnetd/io/toolkit/Editfield.java:63-71 | empty buffer, cursor 0, insert mode on, capacity the given length |
| Editfield.Editfield.SetJustBackspace | src/net/wimpi/telnetd/io/toolkit/Editfield.java:223-225 | switches "just backspace" mode on, whatever the argument |
| Editfield.Editfield.SetJustBackspaceTo | src/net/wimpi/telnetd/io/toolkit/Editfield.java:223-225 | the corrected setter stores its argument |
| Editfield.Editfield.SetInsertMode | src/net/wimpi/telnetd/io/toolkit/Editfield.java:245-247 | stores the argument |
| Editfield.Editfield.SetPasswordField | src/net/wimpi/telnetd/io/toolkit/Editfield.java:253-255 | stores the argument |
| Editfield.Editfield.RegisterInputFilter | src/net/wimpi/telnetd/io/toolkit/Editfield.java:230-232 | stores the filter |
| Editfield.Editfield.RegisterInputValidator | src/net/wimpi/telnetd/io/toolkit/Editfield.java:237-239 | stores the validator |
| Editfield.Editfield.PositionCursorAtBegin | src/net/wimpi/telnetd/io/toolkit/Editfield.java:389-396 | moves to the field's position, or back by the cursor when it has none |
| Editfield.Editfield.Draw | src/net/wimpi/telnetd/io/toolkit/Editfield.java:332-365 | writes exactly the repaint operations built from the buffer, the mask and the previous size |
| Editfield.Editfield.Clear | src/net/wimpi/telnetd/io/toolkit/Editfield.java:101-111 | empties the field and writes a repositioning, one blank per character and the same repositioning again |
| Editfield.Editfield.ClearToOrigin | src/net/wimpi/telnetd/io/toolkit/Editfield.java:101-111 | the corrected clear: its second repositioning moves back over the blanks |
| Editfield.Editfield.MoveRight | src/net/wimpi/telnetd/io/toolkit/Editfield.java:367-376 | changes cursor and terminal as `MoveRightEff` says |
| Editfield.Editfield.MoveLeft | src/net/wimpi/telnetd/io/toolkit/Editfield.java:378-387 | changes cursor and terminal as `MoveLeftEff` says |
| Editfield.Editfield.Append | src/net/wimpi/telnetd/io/toolkit/Editfield.java:175-190 | changes the field and the terminal and throws as `AppendEff` says |
| Editfield.Editfield.AppendString | src/net/wimpi/telnetd/io/toolkit/Editfield.java:192-213 | appends character by character as `AppendStringEff` says |
| Editfield.Editfield.SetValue | src/net/wimpi/telnetd/io/toolkit/Editfield.java:95-99 | the field holds exactly the string, cursor at its end, when it fits; otherwise BufferOverflow with the field left empty |
| Editfield.Editfield.InsertStringAt | src/net/wimpi/telnetd/io/toolkit/Editfield.java:159-173 | the loop inserting each character at the same position, as `InsertStringEff` says |
| Editfield.Editfield.InsertStringInOrder | src/net/wimpi/telnetd/io/toolkit/Editfield.java:159-173 | the corrected loop inserts the i-th character at `pos + i`, as `InsertStringInOrderEff` says |
| Editfield.InsertStringInOrderEff | src/net/wimpi/telnetd/io/toolkit/Editfield.java:159-173 | the string appears at `pos` in order, with the text before and after it kept |
| Editfield.InsertStringAtReverses | src/net/wimpi/telnetd/io/toolkit/Editfield.java:159-173 | as written, inserting "ab" into an empty field gives "ba" |
| Editfield.Editfield.InsertCharAt | src/net/wimpi/telnetd/io/toolkit/Editfield.java:130-143 | as `InsertEff` says |
| Editfield.Editfield.SetCharAt | src/net/wimpi/telnetd/io/toolkit/Editfield.java:119-128 | as `SetCharEff` says |
| Editfield.Editfield.RemoveCharAt | src/net/wimpi/telnetd/io/toolkit/Editfield.java:145-157 | as `RemoveEff` says |
| Editfield.Editfield.HandleCharInput | src/net/wimpi/telnetd/io/toolkit/Editfield.java:402-427 | appends, inserts or overwrites as the mode and cursor say, turning a full buffer into the bell |
| Editfield.Editfield.HandleKey | src/net/wimpi/telnetd/io/toolkit/Editfield.java:277-326 | the run loop's switch on one key; reports whether the loop ends |
| Editfield.Editfield.ReadKey | src/net/wimpi/telnetd/io/toolkit/Editfield.java:268 | takes the next key, or throws when the connection has none |
| Editfield.Editfield.Run | src/net/wimpi/telnetd/io/toolkit/Editfield.java:261-329 | paints the field, then field, terminal, remaining keys and exception end as `Session` says |
| Editfield.DrawRepaints | src/net/wimpi/telnetd/io/toolkit/Editfield.java:332-365 | after a repaint the terminal row shows the (masked) buffer from the field's start, with the terminal cursor on the field cursor |
| Editfield.MovesKeepScreen | src/net/wimpi/telnetd/io/toolkit/Editfield.java:367-387 | LEFT and RIGHT keep the terminal showing the field |
| Editfield.AppendKeepsScreen | src/net/wimpi/telnetd/io/toolkit/Editfield.java:175-190 | appending keeps the terminal showing the field |
| Editfield.InsertKeepsScreen | src/net/wimpi/telnetd/io/toolkit/Editfield.java:130-143 | inserting at the cursor keeps the terminal showing the field |
| Editfield.RemoveKeepsScreen | src/net/wimpi/telnetd/io/toolkit/Editfield.java:145-157 | removing at or before the cursor keeps the terminal showing the field |
| Editfield.SetCharKeepsScreen | src/net/wimpi/telnetd/io/toolkit/Editfield.java:119-128 | overwriting keeps the terminal showing the field |
| Editfield.CharInputKeepsScreen | src/net/wimpi/telnetd/io/toolkit/Editfield.java:402-427 | a typed character never lets an exception escape and keeps the field in bounds and on screen |
| Editfield.EraseKeyKeepsScreen | src/net/wimpi/telnetd/io/toolkit/Editfield.java:307-320 | BACKSPACE and DELETE never let an exception escape and keep the field on screen |
| Editfield.KeyKeepsScreen | src/net/wimpi/telnetd/io/toolkit/Editfield.java:277-326 | every key but -1 keeps the field within bounds and the terminal showing it, and throws nothing |
| Editfield.SessionKeepsScreen | src/net/wimpi/telnetd/io/toolkit/Editfield.java:261-329 | without a filter and without -1 keys, the run ends normally or when the keys run out, with the field in bounds and on screen |
| Editfield.Typing | src/net/wimpi/telnetd/io/toolkit/Editfield.java:324-325 | a plain key is appended at the end, inserted in insert mode, written over in overwrite mode (cursor kept); a full field rings the bell |
| Editfield.Erasing | src/net/wimpi/telnetd/io/toolkit/Editfield.java:307-320 | BACKSPACE removes the character left of the cursor and DELETE the one at it; at the edge the bell rings and nothing changes |
| Editfield.TypeThenBackspace | src/net/wimpi/telnetd/io/toolkit/Editfield.java:307-313 | in insert mode, a plain key then BACKSPACE restores the text and the cursor |
| Editfield.JustBackspaceTurnsDelete | src/net/wimpi/telnetd/io/toolkit/Editfield.java:270-272 | in "just backspace" mode DELETE is read as BACKSPACE, otherwise as itself |
| Editfield.MinusOneKeepsCursor | src/net/wimpi/telnetd/io/toolkit/Editfield.java:278-280 | key -1 empties the buffer but keeps the cursor, so a cursor above 0 ends up past the end; the loop ends |
| Editfield.EndingKeys | src/net/wimpi/telnetd/io/toolkit/Editfield.java:296-323 | of the terminal's keys exactly TAB and an accepted ENTER end the loop |
| Editfield.WriteBlanks | src/net/wimpi/telnetd/io/toolkit/Editfield.java:103-105 | n blanks written from the cursor blank those n cells and keep the ones before |
| Editfield.ClearStrandsCursor | src/net/wimpi/telnetd/io/toolkit/Editfield.java:101-111 | as written, clearing "ab" with the cursor at 0 leaves the terminal cursor at column 2, not at the field's start |
| Editfield.ClearToOriginBlanks | src/net/wimpi/telnetd/io/toolkit/Editfield.java:101-111 | the corrected clear blanks every old cell and leaves the terminal showing the empty field, cursor at its start |
| Editfield.SwitchOffIgnored | src/net/wimpi/telnetd/io/toolkit/Editfield.java:223-225 | as written, `setJustBackspace(false)` leaves the mode on |
| Editfield.SwitchOffTakesEffect | src/net/wimpi/telnetd/io/toolkit/Editfield.java:223-225 | with the corrected setter, switching the mode on and then off leaves it off |
| Selection.OptionAt | src/net/wimpi/telnetd/io/toolkit/Selection.java:126-136 | the option at an index inside the list, null (None) exactly for an index outside it |
| Selection.InsertAt | src/net/wimpi/telnetd/io/toolkit/Selection.java:83-89 | a valid index inserts there, keeping the rest in order; any other index appends; the options gain exactly one copy of the string |
| Selection.RemoveAt | src/net/wimpi/telnetd/io/toolkit/Selection.java:111-117 | a valid index removes that option, keeping the rest in order; any other index changes nothing |
| Selection.FirstIndex | src/net/wimpi/telnetd/io/toolkit/Selection.java:96-103 | the first index holding the string |
| Selection.Remove | src/net/wimpi/telnetd/io/toolkit/Selection.java:96-103 | removes the first option equal to the string when there is one, keeping the others in order; otherwise changes nothing |
| Selection.DrawText | src/net/wimpi/telnetd/io/toolkit/Selection.java:208-219 | the shown option, padded with blanks to the length of the previously shown one |
| Selection.DrawEff | src/net/wimpi/telnetd/io/toolkit/Selection.java:206-226 | the repaint changes no state; it throws NullPointer exactly when either index names no option |
| Selection.SetSelectedEff | src/net/wimpi/telnetd/io/toolkit/Selection.java:156-165 | an index below 0 or above the number of options is ignored; any other becomes selected, the old one last selected |
| Selection.SelectNextEff | src/net/wimpi/telnetd/io/toolkit/Selection.java:229-236 | without a next option nothing happens |
| Selection.SelectPreviousEff | src/net/wimpi/telnetd/io/toolkit/Selection.java:239-246 | without a previous option nothing happens |
| Selection.Selection.constructor | src/net/wimpi/telnetd/io/toolkit/Selection.java:60-65 | no options, both indices 0 |
| Selection.Selection.AddOption | src/net/wimpi/telnetd/io/toolkit/Selection.java:72-74 | appends the option |
| Selection.Selection.InsertOption | src/net/wimpi/telnetd/io/toolkit/Selection.java:83-89 | as `InsertAt` says |
| Selection.Selection.RemoveOptionAt | src/net/wimpi/telnetd/io/toolkit/Selection.java:111-117 | as `RemoveAt` says |
| Selection.Selection.RemoveOption | src/net/wimpi/telnetd/io/toolkit/Selection.java:96-103 | the search loop removes the first equal option, as `Remove` says |
| Selection.Selection.Draw | src/net/wimpi/telnetd/io/toolkit/Selection.java:206-226 | writes and throws as `DrawEff` says |
| Selection.Selection.SetSelected | src/net/wimpi/telnetd/io/toolkit/Selection.java:156-165 | as `SetSelectedEff` says |
| Selection.Selection.SelectNext | src/net/wimpi/telnetd/io/toolkit/Selection.java:229-236 | reports whether there was a next option and moves as `SelectNextEff` says |
| Selection.Selection.SelectPrevious | src/net/wimpi/telnetd/io/toolkit/Selection.java:239-246 | reports whether there was a previous option and moves as `SelectPreviousEff` says |
| Selection.Selection.HandleKey | src/net/wimpi/telnetd/io/toolkit/Selection.java:178-197 | the run loop's switch on one key |
| Selection.Selection.ReadKey | src/net/wimpi/telnetd/io/toolkit/Selection.java:177 | takes the next key, or throws when the connection has none |
| Selection.Selection.Run | src/net/wimpi/telnetd/io/toolkit/Selection.java:171-201 | paints, then menu, terminal, remaining keys and exception end as `Session` says; a failing first paint ends it at once |
| Selection.InsertThenRemove | src/net/wimpi/telnetd/io/toolkit/Selection.java:83-117 | removing at the index just inserted at (or at the end, after a fallback append) gives the options back |
| Selection.RemoveTakesOneCopy | src/net/wimpi/telnetd/io/toolkit/Selection.java:96-103 | with two copies of an option, removing it leaves one |
| Selection.Navigation | src/net/wimpi/telnetd/io/toolkit/Selection.java:178-197 | LEFT/UP select the previous option, RIGHT/DOWN the next, a bell at either end; TAB and ENTER change nothing and end the loop; any other key rings the bell and ends the loop only when it is -1; no key throws and both indices stay on options |
| Selection.SessionKeepsValid | src/net/wimpi/telnetd/io/toolkit/Selection.java:171-201 | a run from a valid menu ends normally or when the keys run out, with both indices still naming options |
| Selection.SetSelectedPastEnd | src/net/wimpi/telnetd/io/toolkit/Selection.java:156-165 | as written, the index one past the last option is accepted and the repaint throws |
| Selection.SetSelectedCheckedEff | src/net/wimpi/telnetd/io/toolkit/Selection.java:156-165 | with the corrected guard, every index either names an option and is selected, or is ignored; nothing throws |
| Welcome.MaxLength | src/com/meyling/telnet/shell/Welcome.java:114-122 | the greatest length among the non-null entries and attained by one of them; -1 exactly when every entry is null |
| Welcome.GetMaximumLength | src/com/meyling/telnet/shell/Welcome.java:114-122 | the loop computes `MaxLength` |
| Welcome.SpaceCache.constructor | src/com/meyling/telnet/shell/Welcome.java:101 | the shared buffer starts as 19 spaces |
| Welcome.SpaceCache.GetSpaces | src/com/meyling/telnet/shell/Welcome.java:130-135 | returns exactly `length` spaces, doubling the buffer until it is long enough, and never to twice what is needed; a negative length throws |
| Welcome.SpaceCache.GetPicture | src/com/meyling/telnet/shell/Welcome.java:144-154 | the loop builds the aligned picture `Aligned` describes |
| Welcome.AlignedRightEdge | src/com/meyling/telnet/shell/Welcome.java:144-154 | each line is blanks, the picture's line and CR LF, and ends before column `right`; the longest ends just before it; alignment throws exactly when a line is as wide as `right` |
| TelnetFilter.IsAllowed | src/net/gamerservices/telnetd/telnetFilter.java:19-50 | the loop with its early return computes `Allowed`: false when the file cannot be read, a NullPointer when the property is missing, else whether an entry equals the address text |
| TelnetFilter.AllowedIffField | src/net/gamerservices/telnetd/telnetFilter.java:24-35 | a non-empty address is admitted exactly when it is one of the comma-separated fields |
| TelnetFilter.AllowedIffListed | src/net/gamerservices/telnetd/telnetFilter.java:24-35 | an allow-list written as comma-joined entries admits exactly those entries |
| TelnetFilter.PaddedEntryRejected | src/net/gamerservices/telnetd/telnetFilter.java:28-35 | entries are not trimmed: " a" never admits "a" |

Some functions hold a whole key switch and carry no contract of their own:
`Editfield.KeyEff`, `Editfield.CharInputEff`, `Selection.KeyEff`,
`ShellIo.ScanDigits`, `ShellIo.PushThen`, `PwtsShell.ShellCommand` and
`Text.JavaSplit`. The rows above cover them through the methods proved equal
to them (`Editfield.Editfield.HandleKey`, `Editfield.Editfield.HandleCharInput`,
`Selection.Selection.HandleKey`, `ShellIo.ShellIo.HandleEscapeSequence`,
`ShellIo.ShellIo.DispatchFinal`) and the lemmas about them
(`Editfield.KeyKeepsScreen`, `Editfield.Typing`, `Editfield.Erasing`,
`Editfield.EndingKeys`, `Selection.Navigation`, `ShellIo.ScanDecimal`,
`ShellIo.RepeatCountPushes`, `PwtsShell.ShellCommandChoice`,
`Text.FieldsOfJoin`, `Text.SplitKeepsNonEmptyFields`).

## Left out

- The shell process: spawning it (`Runtime.exec`), the stdout and stderr pump threads, the output lock, process teardown and exit codes. These are concurrency and I/O. The model keeps only what the input thread sends to standard input.
- Connection events and the logout and timeout handlers beyond the logout count. These are callbacks into the telnet library. A logout request ends `PwtsShell.Session` after its key, because the handler closes the connection.
- `connection.isActive()`, the loop condition of the input thread. The loop runs until a read throws or a logout arrives.
- The reflection that finds the `TelnetIO` object in the `ShellIo` constructor. Writing, flushing and other calls that only delegate to the terminal are left out too.
- The numeric values of the terminal's key codes and the translation of control characters. `BasicTerminalIO` and the terminal classes are not part of this model. The key codes are an abstract `KeyCodes` record and the translation is a function parameter.
- `getBytes()` on the line sent at ENTER. The model sends the line's characters as they are, which is right for the default single-byte charsets. The ENTER byte is the low byte of `(char) c`.
- `toLowerCase(Locale.US)` on non-ASCII letters. Only ASCII letters matter for the "windows" tests.
- ShellIo.PushThen: when the 1024-slot store overflows, the source has pushed some copies before the array index exception. The model throws before pushing any, so it does not capture the partial push.
- ShellIo.ShellIo.PutBufferRepeated: requires room for all copies, because the partial push above is not modelled.
- Welcome.SpaceCache.GetSpaces: does not model the overflow of Java's `int` length once the buffer would pass 2^31 - 1 characters.
- Welcome.Aligned: computes `right - max - 1` on unbounded integers. Java's 32-bit subtraction wraps for `right` near `Integer.MIN_VALUE`, which would turn a negative count into a huge positive one; the model throws IndexOutOfBounds there instead. `Welcome.SpaceCache.GetPicture` inherits this.
- PwtsShell.EchoTracksBuffer: is stated only for a printable line and history and for keys that are ENTER, at least 256 or printable. A control character below 256 is inserted and echoed raw, and what a terminal then shows is not modelled.
- The eight built-in pictures of `Welcome` and the random choice between them. Randomness is an input, so the picture is a parameter of `GetPicture`.
- The static, shared space buffer is a plain object here, so concurrent use is not modelled.
- Loading `plugins/telnetd.properties`. The file's outcome is the `Properties` parameter.
- The logging calls in `isAllowed`, and `InetAddress.toString()`. The address is the text that `toString()` yields, in the "host/address" form.
- `Selection`: null options. `addOption(null)` is not modelled, so only indices outside the list make `getOption` return null.
- Input filters and validators are pure functions. A filter that throws, or one with state, is not modelled.
- Trivial accessors with no behaviour of their own: `getLength`, `getSize`, `getValue`, `getCharAt`, `getCursorPosition`, `isInInsertMode`, `isPasswordField`, `isJustBackspace`, `getSelected`.
- `CharBuffer` (the toolkit's buffer class) is not part of this model. It is modelled as a sequence with a capacity, following its use in `Editfield`: `ensureSpace` throws BufferOverflow, and positional access outside the buffer throws IndexOutOfBounds.
- The field length is a natural number, so a negative length is not modelled.
- The Form, the TelnetD daemon and its configuration, and the welcome banner's other text.

The history follows the code: UP shows the selected entry and then steps to the older one. DOWN shows the selected entry and then steps to the newer one. So after two UPs from `[x, y]`, DOWN shows `x` again rather than `y`. `PwtsShell.HistoryWalk` states this walk. The history is also unbounded, as in the code.

## Findings

| source | as written | input that shows it | evidently intended | confidence | as-written member | corrected member |
|---|---|---|---|---|---|---|
| src/net/wimpi/telnetd/io/toolkit/Editfield.java:165-169 | every character of the string is inserted at `pos` | `insertStringAt(0, "ab")` on an empty field gives "ba" | the string appears at `pos` in order | not executed | Editfield.InsertStringAtReverses | Editfield.Editfield.InsertStringInOrder |
| src/net/wimpi/telnetd/io/toolkit/Editfield.java:102-106 | the second `positionCursorAtBegin` moves back by the old cursor, though the blanks left the terminal cursor at the end of the old text | `clear()` on "ab" with cursor 0 leaves the terminal cursor at column 2 while the field's cursor is 0 | the terminal cursor returns to the field's start | not executed | Editfield.ClearStrandsCursor | Editfield.ClearToOriginBlanks |
| src/net/wimpi/telnetd/io/toolkit/Selection.java:157 | the guard accepts `index == size` | `setSelected(size)` stores an index past the last option, and the repaint throws NullPointerException | indices from 0 to size - 1 only | not executed | Selection.SetSelectedPastEnd | Selection.SetSelectedCheckedEff |
| src/net/wimpi/telnetd/io/toolkit/Editfield.java:223-225 | the argument is ignored and the mode is set to true | `setJustBackspace(false)` leaves "just backspace" mode on | the mode takes the argument's value | not executed | Editfield.SwitchOffIgnored | Editfield.SwitchOffTakesEffect |
