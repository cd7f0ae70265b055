/**
 * The pieces of java.lang.String and StringBuffer behaviour the modelled code
 * relies on: `indexOf`, `toLowerCase`, `split`, joining with a separator, and
 * the decimal text of an `int`.
 */
module Text {

  import opened Terminal

  /** `t` occurs in `s` starting at index `i`. */
  predicate OccursAt<T(==)>(s: seq<T>, t: seq<T>, i: int) {
    0 <= i && i + |t| <= |s| && s[i..i + |t|] == t
  }

  /** Java's `s.indexOf(t)`: the first index where `t` occurs in `s`, or -1. */
  function IndexOf<T(==)>(s: seq<T>, t: seq<T>): (r: int)
    ensures r == -1 || OccursAt(s, t, r)
    ensures r == -1 <==> forall i :: 0 <= i <= |s| ==> !OccursAt(s, t, i)
    ensures r >= 0 ==> forall i :: 0 <= i < r ==> !OccursAt(s, t, i)
    decreases |s|
  {
    if |t| > |s| then -1
    else if s[..|t|] == t then 0
    else
      var k := IndexOf(s[1..], t);
      assert forall i :: 1 <= i <= |s| ==> (OccursAt(s, t, i) <==> OccursAt(s[1..], t, i - 1)) by {
        forall i | 1 <= i <= |s| ensures OccursAt(s, t, i) <==> OccursAt(s[1..], t, i - 1) {
          if i + |t| <= |s| {
            var a, b := s[i..i + |t|], s[1..][i - 1..i - 1 + |t|];
            assert |a| == |b| && forall j :: 0 <= j < |a| ==> a[j] == s[i + j] == b[j];
            assert a == b;
          }
        }
      }
      if k == -1 then -1 else k + 1
  }

  predicate Contains<T(==)>(s: seq<T>, t: seq<T>) {
    IndexOf(s, t) != -1
  }

  /** An occurrence of `t` contains an occurrence of every prefix of `t`. */
  lemma ContainsPrefix<T>(s: seq<T>, t: seq<T>, p: seq<T>)
    requires Contains(s, t) && p <= t
    ensures Contains(s, p)
  {
    var i := IndexOf(s, t);
    assert s[i..i + |p|] == t[..|p|];
    assert OccursAt(s, p, i);
  }

  /**
   * `toLowerCase(Locale.US)` on the ASCII letters. The operating system's
   * name and the shell's command line are never edited or echoed, so they
   * are kept as Dafny `string` literals rather than code-unit sequences.
   */
  function LowerAscii(s: string): (r: string)
    ensures |r| == |s|
    ensures forall i :: 0 <= i < |s| ==>
      r[i] == (if 'A' <= s[i] <= 'Z' then (s[i] as int + 32) as char else s[i])
  {
    if s == [] then []
    else [if 'A' <= s[0] <= 'Z' then (s[0] as int + 32) as char else s[0]] + LowerAscii(s[1..])
  }

  /** The parts of `s` between occurrences of `sep`, empty parts included. */
  function Fields<T(==)>(s: seq<T>, sep: T): (r: seq<seq<T>>)
    ensures |r| >= 1
    ensures forall j :: 0 <= j < |r| ==> sep !in r[j]
    decreases |s|
  {
    var i := IndexOf(s, [sep]);
    if i == -1 then
      assert sep !in s by {
        if sep in s {
          var k :| 0 <= k < |s| && s[k] == sep;
          assert OccursAt(s, [sep], k);
        }
      }
      [s]
    else
      assert s[..i] == s[..i];
      assert sep !in s[..i] by {
        if sep in s[..i] {
          var k :| 0 <= k < i && s[..i][k] == sep;
          assert OccursAt(s, [sep], k);
        }
      }
      [s[..i]] + Fields(s[i + 1..], sep)
  }

  /** `parts` joined with one `sep` between neighbours (a StringBuffer loop in the source). */
  function Join<T>(parts: seq<seq<T>>, sep: T): seq<T>
  {
    if |parts| == 0 then []
    else if |parts| == 1 then parts[0]
    else parts[0] + [sep] + Join(parts[1..], sep)
  }

  /** Joining one more part appends the separator and the part. */
  lemma {:induction false} JoinSnoc<T>(parts: seq<seq<T>>, sep: T, x: seq<T>)
    requires |parts| >= 1
    ensures Join(parts + [x], sep) == Join(parts, sep) + [sep] + x
    decreases |parts|
  {
    if |parts| == 1 {
      assert (parts + [x])[1..] == [x];
    } else {
      assert (parts + [x])[1..] == parts[1..] + [x];
      JoinSnoc(parts[1..], sep, x);
    }
  }

  lemma IndexOfSeparator<T>(a: seq<T>, sep: T, rest: seq<T>)
    requires sep !in a
    ensures IndexOf(a + [sep] + rest, [sep]) == |a|
  {
    var s := a + [sep] + rest;
    assert OccursAt(s, [sep], |a|);
    forall i | 0 <= i < |a| ensures !OccursAt(s, [sep], i) {
      assert s[i] == a[i];
    }
  }

  lemma NoSeparatorOneField<T>(s: seq<T>, sep: T)
    requires sep !in s
    ensures Fields(s, sep) == [s]
  {
    forall i | 0 <= i <= |s| ensures !OccursAt(s, [sep], i) {
      if i < |s| { assert s[i..i + 1][0] == s[i]; }
    }
  }

  /** Splitting a join gives the parts back when no part contains the separator. */
  lemma {:induction false} FieldsOfJoin<T>(parts: seq<seq<T>>, sep: T)
    requires |parts| >= 1
    requires forall j :: 0 <= j < |parts| ==> sep !in parts[j]
    ensures Fields(Join(parts, sep), sep) == parts
    decreases |parts|
  {
    if |parts| == 1 {
      NoSeparatorOneField(parts[0], sep);
    } else {
      var a, rest := parts[0], Join(parts[1..], sep);
      var s := a + [sep] + rest;
      assert Join(parts, sep) == s;
      IndexOfSeparator(a, sep, rest);
      assert s[..|a|] == a;
      assert s[|a| + 1..] == rest;
      assert Fields(s, sep) == [a] + Fields(rest, sep);
      FieldsOfJoin(parts[1..], sep);
      assert parts == [a] + parts[1..];
    }
  }

  /** Java's removal of trailing empty strings from a split result. */
  function DropTrailingEmpty<T>(parts: seq<seq<T>>): (r: seq<seq<T>>)
    ensures r <= parts
    ensures forall j :: |r| <= j < |parts| ==> parts[j] == []
    ensures r == [] || r[|r| - 1] != []
  {
    if parts != [] && parts[|parts| - 1] == [] then DropTrailingEmpty(parts[..|parts| - 1])
    else parts
  }

  /**
   * Java's `s.split(sep)` for a one-character, non-special separator: the
   * whole string when it holds no separator, otherwise the fields with the
   * trailing empty ones removed.
   */
  function JavaSplit<T(==)>(s: seq<T>, sep: T): seq<seq<T>> {
    if sep !in s then [s] else DropTrailingEmpty(Fields(s, sep))
  }

  /** A non-empty text is an element of the split exactly when it is one of the fields. */
  lemma SplitKeepsNonEmptyFields<T>(s: seq<T>, sep: T, x: seq<T>)
    requires x != []
    ensures x in JavaSplit(s, sep) <==> x in Fields(s, sep)
  {
    var f := Fields(s, sep);
    if sep !in s {
      NoSeparatorOneField(s, sep);
    } else {
      var d := DropTrailingEmpty(f);
      if x in f {
        var j :| 0 <= j < |f| && f[j] == x;
        assert j < |d|;
        assert d[j] == x;
      }
    }
  }

  /** Decimal digits of a non-negative number, as character codes. */
  function Digits(n: nat): (r: seq<int>)
    ensures |r| >= 1 && forall i :: 0 <= i < |r| ==> IsDigit(r[i])
  {
    if n < 10 then [Digit0 + n] else Digits(n / 10) + [Digit0 + n % 10]
  }

  /** Java's `StringBuffer.append(int)`: the decimal text of `n`, with a minus sign when negative. */
  function DecimalText(n: int): seq<int> {
    if n < 0 then [45] + Digits(-n) else Digits(n)
  }

  /** The value of a run of decimal digits read left to right, starting from `acc`. */
  function ParseDecimalFrom(acc: int, s: seq<int>): int
    decreases |s|
  {
    if s == [] then acc else ParseDecimalFrom(acc * 10 + (s[0] - Digit0), s[1..])
  }

  /** The value of a run of decimal digits. */
  function ParseDecimal(s: seq<int>): int {
    ParseDecimalFrom(0, s)
  }

  /** Reading more digits never lowers a non-negative value. */
  lemma {:induction false} ParseDecimalFromGrows(acc: int, s: seq<int>)
    requires 0 <= acc
    requires forall i :: 0 <= i < |s| ==> IsDigit(s[i])
    ensures acc <= ParseDecimalFrom(acc, s)
    decreases |s|
  {
    if s != [] {
      ParseDecimalFromGrows(acc * 10 + (s[0] - Digit0), s[1..]);
    }
  }

  /** One more digit at the end multiplies the value by ten and adds the digit. */
  lemma {:induction false} ParseDecimalSnoc(acc: int, s: seq<int>, d: int)
    ensures ParseDecimalFrom(acc, s + [d]) == ParseDecimalFrom(acc, s) * 10 + (d - Digit0)
    decreases |s|
  {
    if s == [] {
      assert ([] + [d])[1..] == [];
    } else {
      assert (s + [d])[1..] == s[1..] + [d];
      ParseDecimalSnoc(acc * 10 + (s[0] - Digit0), s[1..], d);
    }
  }

  /** Reading the printed digits of `n` gives `n` back. */
  lemma {:induction false} ParseDigits(n: nat)
    ensures ParseDecimal(Digits(n)) == n
  {
    if n < 10 {
      assert [Digit0 + n][1..] == [];
      assert ParseDecimalFrom(0, [Digit0 + n]) == ParseDecimalFrom(n, []);
    } else {
      ParseDigits(n / 10);
      ParseDecimalSnoc(0, Digits(n / 10), Digit0 + n % 10);
      assert Digits(n) == Digits(n / 10) + [Digit0 + n % 10];
    }
  }

}
