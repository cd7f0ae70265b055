/**
 * The welcome picture: ASCII art right-aligned against a column by a
 * prefix of spaces, the spaces cut from a shared buffer that doubles
 * until it is long enough.
 */
module Welcome {

  import opened Outcomes
  import opened Terminal

  /** The length of the shared space buffer before its first doubling. */
  const InitialSpaces: nat := 19

  const CR: CodeUnit := 13
  const LF: CodeUnit := 10

  function Pow2(n: nat): (r: nat)
    ensures r >= 1
  {
    if n == 0 then 1 else 2 * Pow2(n - 1)
  }

  predicate AllSpaces(s: JString) {
    forall i :: 0 <= i < |s| ==> s[i] == Space
  }

  /**
   * `getMaximumLength`: the greatest length among the entries that are not
   * null, or -1 when there is none.
   */
  function MaxLength(arg: seq<Option<JString>>): (r: int)
    ensures r >= -1
    ensures forall i :: 0 <= i < |arg| && arg[i].Some? ==> |arg[i].value| <= r
    ensures r == -1 <==> forall i :: 0 <= i < |arg| ==> arg[i].None?
    ensures r >= 0 ==> exists i :: 0 <= i < |arg| && arg[i].Some? && |arg[i].value| == r
  {
    if arg == [] then -1
    else
      var m := MaxLength(arg[..|arg| - 1]);
      var last := arg[|arg| - 1];
      assert forall i :: 0 <= i < |arg| - 1 ==> arg[..|arg| - 1][i] == arg[i];
      if last.Some? && |last.value| > m then |last.value| else m
  }

  /** `getMaximumLength`, the loop as written. */
  method GetMaximumLength(arg: seq<Option<JString>>) returns (maximum: int)
    ensures maximum == MaxLength(arg)
  {
    maximum := -1;
    var i := 0;
    while i < |arg|
      invariant 0 <= i <= |arg| && maximum == MaxLength(arg[..i])
    {
      assert arg[..i + 1][..i] == arg[..i];
      if arg[i].Some? && |arg[i].value| > maximum {
        maximum := |arg[i].value|;
      }
      i := i + 1;
    }
    assert arg[..i] == arg;
  }

  /**
   * The picture right-aligned so that its longest line ends just before
   * column `right`: each line is prefixed by the same run of spaces and
   * terminated by CR LF. Too narrow a column makes the `substring` throw.
   */
  function Aligned(right: int, picture: seq<JString>): (r: Result<seq<JString>, Fault>)
  {
    var pad := right - MaxLength(Present(picture)) - 1;
    if pad < 0 then Err(IndexOutOfBounds)
    else Ok(seq(|picture|, i requires 0 <= i < |picture| => Repeat(Space, pad) + picture[i] + [CR, LF]))
  }

  /** The lines of a picture as the entries of a `String[]`, none of them null. */
  function Present(picture: seq<JString>): (r: seq<Option<JString>>)
    ensures |r| == |picture| && forall i :: 0 <= i < |r| ==> r[i] == Some(picture[i])
  {
    seq(|picture|, i requires 0 <= i < |picture| => Some(picture[i]))
  }

  /** The shared `spaces` buffer. */
  class SpaceCache {
    var spaces: JString
    /** How often the buffer has doubled. */
    ghost var doublings: nat

    /** The buffer holds only spaces and is the initial buffer doubled `doublings` times. */
    ghost predicate Valid()
      reads this
    {
      AllSpaces(spaces) && |spaces| == InitialSpaces * Pow2(doublings)
    }

    constructor ()
      ensures Valid() && |spaces| == InitialSpaces && doublings == 0
    {
      spaces := Repeat(Space, InitialSpaces);
      doublings := 0;
    }

    /**
     * `getSpaces`: doubles the buffer until it holds `length` characters and
     * returns its first `length`; a negative length throws.
     */
    method GetSpaces(length: int) returns (r: Result<JString, Fault>)
      requires Valid()
      modifies this
      ensures Valid() && doublings >= old(doublings)
      ensures length < 0 ==> r == Err(IndexOutOfBounds)
      ensures length >= 0 ==> r == Ok(Repeat(Space, length)) && length <= |spaces|
      ensures |spaces| > InitialSpaces && doublings > old(doublings) ==> |spaces| < 2 * length
    {
      while length > |spaces|
        invariant Valid() && doublings >= old(doublings)
        invariant |spaces| > InitialSpaces && doublings > old(doublings) ==> |spaces| < 2 * length
        decreases length - |spaces|
      {
        spaces := spaces + spaces;
        doublings := doublings + 1;
      }
      if length < 0 {
        return Err(IndexOutOfBounds);
      }
      assert spaces[..length] == Repeat(Space, length);
      r := Ok(spaces[..length]);
    }

    /** `getRandomPicture` with the picture given rather than drawn at random. */
    method GetPicture(right: int, picture: seq<JString>) returns (r: Result<seq<JString>, Fault>)
      requires Valid()
      modifies this
      ensures Valid()
      ensures r == Aligned(right, picture)
    {
      var max := GetMaximumLength(Present(picture));
      var pad := GetSpaces(right - max - 1);
      if pad.Err? {
        return Err(pad.error);
      }
      var result: seq<JString> := [];
      var i := 0;
      while i < |picture|
        invariant 0 <= i <= |picture| && |result| == i
        invariant forall j :: 0 <= j < i ==> result[j] == pad.value + picture[j] + [CR, LF]
      {
        result := result + [pad.value + picture[i] + [CR, LF]];
        i := i + 1;
      }
      assert result == Aligned(right, picture).value;
      r := Ok(result);
    }
  }

  /**
   * The aligned picture keeps every line of the picture in order, each
   * ending before column `right` and the longest ending just before it;
   * alignment fails exactly when a line is as wide as `right`.
   */
  lemma AlignedRightEdge(right: int, picture: seq<JString>)
    ensures Aligned(right, picture).Err? <==>
      (exists i :: 0 <= i < |picture| && |picture[i]| >= right) || (picture == [] && right < 0)
    ensures var r := Aligned(right, picture); r.Ok? ==>
      && |r.value| == |picture|
      && forall i :: 0 <= i < |picture| ==>
           var pad := |r.value[i]| - |picture[i]| - 2;
           && pad >= 0 && r.value[i][pad..pad + |picture[i]|] == picture[i]
           && AllSpaces(r.value[i][..pad]) && r.value[i][pad + |picture[i]|..] == [CR, LF]
           && pad + |picture[i]| <= right - 1
    ensures var r := Aligned(right, picture); r.Ok? && picture != [] ==>
      exists i :: 0 <= i < |picture| && |r.value[i]| - 2 == right - 1
  {
    var m := MaxLength(Present(picture));
    LongestLine(picture);
    var r := Aligned(right, picture);
    if r.Ok? {
      forall i | 0 <= i < |picture|
        ensures var line := r.value[i]; var q := |line| - |picture[i]| - 2;
          && q == right - m - 1 && line[q..q + |picture[i]|] == picture[i]
          && AllSpaces(line[..q]) && line[q + |picture[i]|..] == [CR, LF]
      {
        PaddedLine(right - m - 1, picture[i]);
      }
    }
  }

  /** The widest line of a picture is as long as `MaxLength` says, and no line is longer. */
  lemma LongestLine(picture: seq<JString>)
    ensures var m := MaxLength(Present(picture));
      && (picture == [] <==> m == -1)
      && (forall i :: 0 <= i < |picture| ==> |picture[i]| <= m)
      && (picture != [] ==> exists w :: 0 <= w < |picture| && |picture[w]| == m)
  {
    var p := Present(picture);
    var m := MaxLength(p);
    if picture != [] {
      assert p[0].Some?;
      var w :| 0 <= w < |p| && p[w].Some? && |p[w].value| == m;
      assert |picture[w]| == m;
    }
    forall i | 0 <= i < |picture| ensures |picture[i]| <= m {
      assert p[i].Some?;
    }
  }

  /** A line behind `pad` spaces and before CR LF. */
  lemma PaddedLine(pad: nat, text: JString)
    ensures var line := Repeat(Space, pad) + text + [CR, LF];
      && line[pad..pad + |text|] == text && AllSpaces(line[..pad]) && line[pad + |text|..] == [CR, LF]
  {
    var line := Repeat(Space, pad) + text + [CR, LF];
    assert line[..pad] == Repeat(Space, pad);
    assert line[pad..pad + |text|] == text;
    assert line[pad + |text|..] == [CR, LF];
  }

}
