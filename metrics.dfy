/**
 * Text metrics over the font dictionary: the width of a string and the
 * vertical extent of its ink, baseline-relative, as drawing.get_bboxes
 * reports them.
 */
module Metrics {
  import opened Pixels
  import opened ColoredChars

  /** The width a character adds to a string: its glyph's width, or nothing when it has no glyph. */
  function CharWidth(c: char, fd: map<char, ColoredChar>): int
  {
    if c in fd then fd[c].width else 0
  }

  /** The characters that take part in a string's vertical extent: those with a glyph, apart from the space. */
  predicate Inks(c: char, fd: map<char, ColoredChar>)
  {
    c in fd && c != ' '
  }

  /** The sum of the glyph widths of the characters of `s` that are in `fd`. */
  function Width(s: string, fd: map<char, ColoredChar>): (w: int)
    ensures ValidFontDict(fd) ==> 0 <= w
  {
    if s == [] then 0
    else Width(s[..|s| - 1], fd) + CharWidth(s[|s| - 1], fd)
  }

  /**
   * The top of a string's ink: the least top coordinate over its inking
   * characters, and never below the baseline's 0.
   */
  function Top(s: string, fd: map<char, ColoredChar>): (t: int)
    ensures t <= 0
    ensures forall i :: 0 <= i < |s| && Inks(s[i], fd) ==> t <= fd[s[i]].topCoord
    ensures t == 0 || exists i :: 0 <= i < |s| && Inks(s[i], fd) && t == fd[s[i]].topCoord
  {
    if s == [] then 0
    else
      var t, c := Top(s[..|s| - 1], fd), s[|s| - 1];
      assert forall i :: 0 <= i < |s| - 1 ==> s[..|s| - 1][i] == s[i];
      if Inks(c, fd) then Min(t, fd[c].topCoord) else t
  }

  /**
   * The bottom of a string's ink: the greatest bottom coordinate over its
   * inking characters, and never above the baseline's 0.
   */
  function Bottom(s: string, fd: map<char, ColoredChar>): (b: int)
    ensures 0 <= b
    ensures forall i :: 0 <= i < |s| && Inks(s[i], fd) ==> fd[s[i]].bottomCoord <= b
    ensures b == 0 || exists i :: 0 <= i < |s| && Inks(s[i], fd) && b == fd[s[i]].bottomCoord
  {
    if s == [] then 0
    else
      var b, c := Bottom(s[..|s| - 1], fd), s[|s| - 1];
      assert forall i :: 0 <= i < |s| - 1 ==> s[..|s| - 1][i] == s[i];
      if Inks(c, fd) then Max(b, fd[c].bottomCoord) else b
  }

  lemma {:induction false} WidthAppend(s: string, t: string, fd: map<char, ColoredChar>)
    ensures Width(s + t, fd) == Width(s, fd) + Width(t, fd)
  {
    if t == [] {
      assert s + t == s;
    } else {
      var t' := t[..|t| - 1];
      assert (s + t)[..|s + t| - 1] == s + t';
      WidthAppend(s, t', fd);
    }
  }

  lemma {:induction false} ExtentAppend(s: string, t: string, fd: map<char, ColoredChar>)
    ensures Top(s + t, fd) == Min(Top(s, fd), Top(t, fd))
    ensures Bottom(s + t, fd) == Max(Bottom(s, fd), Bottom(t, fd))
  {
    if t == [] {
      assert s + t == s;
    } else {
      var t' := t[..|t| - 1];
      assert (s + t)[..|s + t| - 1] == s + t';
      ExtentAppend(s, t', fd);
    }
  }

  /** Glyph widths are positive, so a prefix of a string is never wider than the string. */
  lemma {:induction false} WidthPrefix(s: string, k: nat, fd: map<char, ColoredChar>)
    requires k <= |s| && ValidFontDict(fd)
    ensures 0 <= Width(s[..k], fd) <= Width(s, fd)
  {
    if s != [] {
      var init := s[..|s| - 1];
      if k < |s| {
        WidthPrefix(init, k, fd);
        assert init[..k] == s[..k];
      } else {
        WidthPrefix(init, |init|, fd);
        assert init[..|init|] == init;
        assert s[..k] == s;
      }
    }
  }

  /**
   * A space changes neither the top nor the bottom of a string, and adds
   * its own width when the dictionary has a glyph for it.
   */
  lemma SpaceNeutral(s: string, t: string, fd: map<char, ColoredChar>)
    ensures Top(s + " " + t, fd) == Top(s + t, fd)
    ensures Bottom(s + " " + t, fd) == Bottom(s + t, fd)
    ensures Width(s + " " + t, fd) == Width(s + t, fd) + CharWidth(' ', fd)
  {
    ExtentAppend(s + " ", t, fd);
    ExtentAppend(s, " ", fd);
    ExtentAppend(s, t, fd);
    WidthAppend(s + " ", t, fd);
    WidthAppend(s, " ", fd);
    WidthAppend(s, t, fd);
    assert Width(" ", fd) == Width([], fd) + CharWidth(' ', fd);
    assert Top(" ", fd) == 0 && Bottom(" ", fd) == 0;
  }

  /**
   * get_bboxes: three lists, one entry per string, built by adding each
   * present character's width and widening the top and bottom by each
   * present character that is not a space.
   */
  method GetBboxes(textList: seq<string>, fd: map<char, ColoredChar>)
    returns (widths: seq<int>, tops: seq<int>, bottoms: seq<int>)
    ensures |widths| == |tops| == |bottoms| == |textList|
    ensures forall i :: 0 <= i < |textList| ==>
      widths[i] == Width(textList[i], fd) && tops[i] == Top(textList[i], fd) && bottoms[i] == Bottom(textList[i], fd)
  {
    widths, tops, bottoms := seq(|textList|, _ => 0), seq(|textList|, _ => 0), seq(|textList|, _ => 0);
    for i := 0 to |textList|
      invariant |widths| == |tops| == |bottoms| == |textList|
      invariant forall k :: 0 <= k < i ==>
        widths[k] == Width(textList[k], fd) && tops[k] == Top(textList[k], fd) && bottoms[k] == Bottom(textList[k], fd)
      invariant forall k :: i <= k < |textList| ==> widths[k] == 0 && tops[k] == 0 && bottoms[k] == 0
    {
      var text := textList[i];
      for j := 0 to |text|
        invariant |widths| == |tops| == |bottoms| == |textList|
        invariant forall k :: 0 <= k < i ==>
          widths[k] == Width(textList[k], fd) && tops[k] == Top(textList[k], fd) && bottoms[k] == Bottom(textList[k], fd)
        invariant forall k :: i < k < |textList| ==> widths[k] == 0 && tops[k] == 0 && bottoms[k] == 0
        invariant widths[i] == Width(text[..j], fd) && tops[i] == Top(text[..j], fd) && bottoms[i] == Bottom(text[..j], fd)
      {
        var c := text[j];
        assert text[..j + 1][..j] == text[..j];
        if c in fd {
          widths := widths[i := widths[i] + fd[c].width];
          if c != ' ' {
            tops := tops[i := Min(tops[i], fd[c].topCoord)];
            bottoms := bottoms[i := Max(bottoms[i], fd[c].bottomCoord)];
          }
        }
      }
      assert text[..|text|] == text;
    }
  }
}
