/**
  The gradient's control colours: the comma-separated hex list given on the
  command line, or the built-in rainbow when that list is empty.
 */
module Gradient {
  import opened Wrappers
  import opened Colors

  /**
    strings.Split with a one-character separator: the pieces between
    consecutive separators, in order, empty pieces included.
   */
  function Split(s: string, sep: char): (pieces: seq<string>)
    ensures |pieces| == multiset(s)[sep] + 1
    ensures forall i :: 0 <= i < |pieces| ==> sep !in pieces[i]
  {
    if s == [] then [""]
    else
      var rest := Split(s[1..], sep);
      assert s == [s[0]] + s[1..];
      if s[0] == sep then [""] + rest
      else [[s[0]] + rest[0]] + rest[1..]
  }

  /** strings.Join with a one-character separator. */
  function Join(pieces: seq<string>, sep: char): (s: string)
    requires |pieces| >= 1
  {
    if |pieces| == 1 then pieces[0]
    else pieces[0] + [sep] + Join(pieces[1..], sep)
  }

  /** Joining the pieces of a split gives back the string that was split. */
  lemma {:induction false} JoinSplit(s: string, sep: char)
    ensures Join(Split(s, sep), sep) == s
  {
    if s != [] {
      var rest := Split(s[1..], sep);
      JoinSplit(s[1..], sep);
      if s[0] != sep {
        assert Split(s, sep) == [[s[0]] + rest[0]] + rest[1..];
        if |rest| == 1 {
        } else {
          assert rest == [rest[0]] + rest[1..];
          assert Join(rest, sep) == rest[0] + [sep] + Join(rest[1..], sep);
        }
      }
    }
  }

  /** Splitting a piece that holds no separator, followed by more text. */
  lemma {:induction false} SplitPrefix(p: string, t: string, sep: char)
    requires sep !in p
    ensures Split(p + t, sep) == [p + Split(t, sep)[0]] + Split(t, sep)[1..]
  {
    if p != [] {
      assert (p + t)[0] == p[0] != sep;
      assert (p + t)[1..] == p[1..] + t;
      assert sep !in p[1..];
      SplitPrefix(p[1..], t, sep);
      var s, rest := Split(t, sep), Split(p[1..] + t, sep);
      assert Split(p + t, sep) == [[p[0]] + rest[0]] + rest[1..];
      assert rest[0] == p[1..] + s[0] && rest[1..] == s[1..];
      assert [p[0]] + (p[1..] + s[0]) == p + s[0];
    } else {
      assert p + t == t;
      var s := Split(t, sep);
      assert p + s[0] == s[0];
      assert [p + s[0]] + s[1..] == [s[0]] + s[1..] == s;
    }
  }

  /** Splitting pieces that hold no separator, once joined, gives back those pieces. */
  lemma {:induction false} SplitJoin(pieces: seq<string>, sep: char)
    requires |pieces| >= 1
    requires forall i :: 0 <= i < |pieces| ==> sep !in pieces[i]
    ensures Split(Join(pieces, sep), sep) == pieces
  {
    if |pieces| == 1 {
      SplitPrefix(pieces[0], "", sep);
      assert pieces[0] + "" == pieces[0];
    } else {
      var tail := Join(pieces[1..], sep);
      SplitJoin(pieces[1..], sep);
      SplitPrefix(pieces[0], [sep] + tail, sep);
      assert pieces[0] + [sep] + tail == pieces[0] + ([sep] + tail);
      assert ([sep] + tail)[1..] == tail;
      assert pieces[0] + "" == pieces[0];
      assert pieces == [pieces[0]] + pieces[1..];
    }
  }

  /** The built-in gradient: red, orange, yellow, green, blue, violet. */
  function DefaultColors(): (colors: seq<FloatColor>)
    ensures |colors| == 6
    ensures forall i :: 0 <= i < |colors| ==> InGamut(colors[i])
  {
    [
      FloatColor(1.0, 0.0, 0.0),
      FloatColor(1.0, 127.0 / 255.0, 0.0),
      FloatColor(1.0, 1.0, 0.0),
      FloatColor(0.0, 1.0, 0.0),
      FloatColor(0.0, 0.0, 1.0),
      FloatColor(139.0 / 255.0, 0.0, 1.0)
    ]
  }

  /** The built-in gradient, written as 8-bit colours. */
  lemma DefaultColorsAreRainbow()
    ensures DefaultColors() == [
      FromRgb255(255, 0, 0), FromRgb255(255, 127, 0), FromRgb255(255, 255, 0),
      FromRgb255(0, 255, 0), FromRgb255(0, 0, 255), FromRgb255(139, 0, 255)]
  {
  }

  /** Piece k is the first piece the library rejects as a hex colour. */
  ghost predicate FirstInvalid(lib: ColorLib, pieces: seq<string>, k: int) {
    && 0 <= k < |pieces|
    && lib.hex("#" + pieces[k]).None?
    && forall j :: 0 <= j < k ==> lib.hex("#" + pieces[j]).Some?
  }

  /**
    parseGradientColors: the empty string gives the built-in rainbow;
    otherwise every comma-separated piece must parse as a hex colour (after a
    '#' is put in front of it), and the colours come back in the order of the
    pieces; the first piece that does not parse is named in the error and no
    colours are returned.
   */
  method ParseGradientColors(lib: ColorLib, gradientColors: string)
    returns (result: Result<seq<FloatColor>, string>)
    ensures gradientColors == [] ==> result == Success(DefaultColors())
    ensures gradientColors != [] ==>
      var pieces := Split(gradientColors, ',');
      && (result.Success? <==> forall i :: 0 <= i < |pieces| ==> lib.hex("#" + pieces[i]).Some?)
      && (result.Success? ==>
            && |result.value| == |pieces|
            && forall i :: 0 <= i < |pieces| ==> lib.hex("#" + pieces[i]) == Some(result.value[i]))
      && (result.Failure? ==>
            exists k :: FirstInvalid(lib, pieces, k) && result.error == "Invalid color: " + pieces[k])
  {
    if |gradientColors| != 0 {
      var colorHexes := Split(gradientColors, ',');
      var colors := new FloatColor[|colorHexes|];
      for i := 0 to |colorHexes|
        invariant forall j :: 0 <= j < i ==> lib.hex("#" + colorHexes[j]) == Some(colors[j])
      {
        var hex := colorHexes[i];
        var color := lib.hex("#" + hex);
        if color.None? {
          assert FirstInvalid(lib, colorHexes, i);
          assert colorHexes == Split(gradientColors, ',');
          return Failure("Invalid color: " + hex);
        }
        colors[i] := color.value;
      }
      result := Success(colors[..]);
    } else {
      result := Success(DefaultColors());
    }
  }
}
