/** The pattern fill: one line built by repeating the pattern character by
    character while the next character still fits in the image width, then
    that line repeated once per whole line height of the image. */
module Fill {
  import opened Numeric
  import opened Compositor

  /** The first k characters of the endless repetition of p. */
  function Cycle(p: string, k: nat): (c: string)
    requires p != []
    ensures |c| == k
  {
    seq(k, i requires 0 <= i => p[i % |p|])
  }

  /** The measured width of a string: the sum of its characters' advances. */
  function TextWidth(s: string, advance: char -> real): real {
    if s == [] then 0.0 else TextWidth(s[..|s| - 1], advance) + advance(s[|s| - 1])
  }

  /** No character of p has a negative advance. */
  predicate NonNegative(p: string, advance: char -> real) {
    forall i :: 0 <= i < |p| ==> advance(p[i]) >= 0.0
  }

  /** The empty pattern field and a zero image size fall back to defaults. */
  function PatternOrDefault(input: string): (p: string)
    ensures p != []
    ensures input != [] ==> p == input
  {
    if input == [] then "-#" else input
  }

  function OrDefault(n: nat, d: nat): (r: nat)
    ensures n != 0 ==> r == n
    ensures n == 0 ==> r == d
  {
    if n == 0 then d else n
  }

  /** As many whole copies of the line, each with a line break, as rows of
      lineHeight pixels fit in the height. */
  function Copies(line: string, k: nat): (rows: seq<string>)
    ensures |rows| == k && forall i :: 0 <= i < k ==> rows[i] == line
  {
    seq(k, _ => line)
  }

  // ---------------------------------------------------------------------------
  // Widths of repetitions.

  lemma {:induction false} TextWidthAppend(a: string, b: string, advance: char -> real)
    ensures TextWidth(a + b, advance) == TextWidth(a, advance) + TextWidth(b, advance)
    decreases |b|
  {
    if b == [] {
      assert a + b == a;
    } else {
      var b' := b[..|b| - 1];
      assert (a + b)[..|a + b| - 1] == a + b';
      TextWidthAppend(a, b', advance);
    }
  }

  lemma {:induction false} TextWidthNonNegative(s: string, advance: char -> real)
    requires NonNegative(s, advance)
    ensures TextWidth(s, advance) >= 0.0
  {
    if s != [] {
      TextWidthNonNegative(s[..|s| - 1], advance);
    }
  }

  /** Every character of every repetition comes from the pattern. */
  lemma CycleNonNegative(p: string, k: nat, advance: char -> real)
    requires p != [] && NonNegative(p, advance)
    ensures NonNegative(Cycle(p, k), advance)
  {
  }

  /** A repetition holding q whole patterns is at least q pattern widths wide. */
  lemma {:induction false} CycleWidth(p: string, q: nat, k: nat, advance: char -> real)
    requires p != [] && NonNegative(p, advance) && q * |p| <= k
    ensures TextWidth(Cycle(p, k), advance) >= q as real * TextWidth(p, advance)
    decreases q
  {
    if q == 0 {
      CycleNonNegative(p, k, advance);
      TextWidthNonNegative(Cycle(p, k), advance);
    } else {
      assert q * |p| == (q - 1) * |p| + |p|;
      CycleWidth(p, q - 1, k - |p|, advance);
      CycleWidthStep(p, q, k, advance);
    }
  }

  lemma CycleWidthStep(p: string, q: nat, k: nat, advance: char -> real)
    requires p != [] && q >= 1 && |p| <= k
    requires TextWidth(Cycle(p, k - |p|), advance) >= (q - 1) as real * TextWidth(p, advance)
    ensures TextWidth(Cycle(p, k), advance) >= q as real * TextWidth(p, advance)
  {
    CycleSplit(p, k);
    TextWidthAppend(p, Cycle(p, k - |p|), advance);
    Distribute(q - 1, TextWidth(p, advance));
  }

  /** A repetition of at least |p| characters starts with the whole pattern. */
  lemma CycleSplit(p: string, k: nat)
    requires p != [] && k >= |p|
    ensures Cycle(p, k) == p + Cycle(p, k - |p|)
  {
    var n, rest := |p|, Cycle(p, k - |p|);
    forall i | 0 <= i < k ensures Cycle(p, k)[i] == (p + rest)[i] {
      if i >= n {
        QuotientStep(i, n);
      } else {
        QuotientUnique(i, n, 0);
      }
    }
  }

  /** Taking n away from k takes one from k / n and leaves k % n. */
  lemma QuotientStep(k: nat, n: nat)
    requires 1 <= n <= k
    ensures k / n == (k - n) / n + 1 && k % n == (k - n) % n
  {
    var q, r := (k - n) / n, (k - n) % n;
    assert k - n == q * n + r;
    assert (q + 1) * n == q * n + n;
    QuotientUnique(k, n, q + 1);
  }

  lemma Distribute(q: int, P: real)
    ensures (q + 1) as real * P == q as real * P + P
  {
  }

  /** A longer repetition is never narrower. */
  lemma {:induction false} CycleWidthMonotone(p: string, j: nat, k: nat, advance: char -> real)
    requires p != [] && NonNegative(p, advance) && j <= k
    ensures TextWidth(Cycle(p, j), advance) <= TextWidth(Cycle(p, k), advance)
    decreases k - j
  {
    if j < k {
      CycleWidthMonotone(p, j, k - 1, advance);
      assert Cycle(p, k)[..k - 1] == Cycle(p, k - 1);
    }
  }

  /** Where every further character overshoots, no bound below it can exist. */
  function FitBound(p: string, width: nat, advance: char -> real): nat
    requires p != [] && TextWidth(p, advance) > 0.0
  {
    |p| * ((width as real / TextWidth(p, advance)).Floor + 1)
  }

  /** A repetition that fits in the width is shorter than FitBound. */
  lemma FitBelowBound(p: string, width: nat, k: nat, advance: char -> real)
    requires p != [] && NonNegative(p, advance) && TextWidth(p, advance) > 0.0
    requires TextWidth(Cycle(p, k), advance) <= width as real
    ensures k < FitBound(p, width, advance)
  {
    QuotientBound(k, |p|);
    CycleWidth(p, k / |p|, k, advance);
    RoundsBound(k, |p|, TextWidth(Cycle(p, k), advance), width as real, TextWidth(p, advance));
  }

  /** The arithmetic behind FitBelowBound: k characters measuring w, at least
      k / n whole rounds of width P, within W. */
  lemma RoundsBound(k: nat, n: nat, w: real, W: real, P: real)
    requires n >= 1 && P > 0.0 && w <= W && w >= (k / n) as real * P
    ensures k < n * ((W / P).Floor + 1)
  {
    var q, f := k / n, (W / P).Floor;
    QuotientBound(k, n);
    RoundsBelow(q, W, P);
    BelowNextRound(k, n, q, f);
  }

  lemma BelowNextRound(k: nat, n: nat, q: int, f: int)
    requires k < (q + 1) * n && q <= f
    ensures k < n * (f + 1)
  {
    MulMonotone(q + 1, f + 1, n);
  }

  /** q whole rounds of width P within W are at most W / P rounds. */
  lemma RoundsBelow(q: int, W: real, P: real)
    requires P > 0.0 && q as real * P <= W
    ensures q <= (W / P).Floor
  {
    assert (W / P) * P == W;
    assert q as real <= W / P;
  }

  lemma QuotientBound(k: nat, n: nat)
    requires n >= 1
    ensures (k / n) * n <= k < (k / n + 1) * n
  {
    assert k == (k / n) * n + k % n;
  }

  /** The number of pattern characters the fill line holds, counted from k
      onwards: stop before the first character that would overshoot. */
  function FitCount(p: string, width: nat, advance: char -> real, k: nat): (m: nat)
    requires p != [] && NonNegative(p, advance) && TextWidth(p, advance) > 0.0
    requires TextWidth(Cycle(p, k), advance) <= width as real
    ensures k <= m
    ensures TextWidth(Cycle(p, m), advance) <= width as real
    ensures TextWidth(Cycle(p, m + 1), advance) > width as real
    decreases FitBound(p, width, advance) - k
  {
    FitBelowBound(p, width, k, advance);
    if TextWidth(Cycle(p, k + 1), advance) > width as real then k
    else
      FitBelowBound(p, width, k + 1, advance);
      FitCount(p, width, advance, k + 1)
  }

  /** The fill line: the longest repetition of the pattern that fits. */
  function FitLine(p: string, width: nat, advance: char -> real): (line: string)
    requires p != [] && NonNegative(p, advance) && TextWidth(p, advance) > 0.0
    ensures line == Cycle(p, |line|)
    ensures TextWidth(line, advance) <= width as real
    ensures TextWidth(Cycle(p, |line| + 1), advance) > width as real
  {
    Cycle(p, FitCount(p, width, advance, 0))
  }

  /** The fill line is the longest repetition that fits: everything shorter
      fits too and everything longer overshoots. */
  lemma FitLineIsLongest(p: string, width: nat, advance: char -> real, k: nat)
    requires p != [] && NonNegative(p, advance) && TextWidth(p, advance) > 0.0
    ensures var m := |FitLine(p, width, advance)|;
              (k <= m ==> TextWidth(Cycle(p, k), advance) <= width as real) &&
              (k > m ==> TextWidth(Cycle(p, k), advance) > width as real)
  {
    var m := FitCount(p, width, advance, 0);
    if k <= m {
      CycleWidthMonotone(p, k, m, advance);
    } else {
      CycleWidthMonotone(p, m + 1, k, advance);
    }
  }

  // ---------------------------------------------------------------------------
  // fillPattern as the source writes it.

  /** The while (true) loop of fillPattern: append pattern[pIdx % length] while
      currentX + its width stays within the width. */
  method FillLine(pattern: string, width: nat, advance: char -> real) returns (lineStr: string)
    requires pattern != [] && NonNegative(pattern, advance) && TextWidth(pattern, advance) > 0.0
    ensures lineStr == FitLine(pattern, width, advance)
    ensures lineStr == Cycle(pattern, |lineStr|)
    ensures TextWidth(lineStr, advance) <= width as real
    ensures TextWidth(Cycle(pattern, |lineStr| + 1), advance) > width as real
  {
    var currentX: real := 0.0;
    lineStr := "";
    var pIdx: nat := 0;
    while true
      invariant lineStr == Cycle(pattern, pIdx) && currentX == TextWidth(lineStr, advance)
      invariant currentX <= width as real
      invariant FitCount(pattern, width, advance, pIdx) == FitCount(pattern, width, advance, 0)
      decreases FitBound(pattern, width, advance) - pIdx
    {
      var ch := pattern[pIdx % |pattern|];
      var charW := advance(ch);
      assert Cycle(pattern, pIdx + 1) == lineStr + [ch];
      if currentX + charW > width as real {
        break;
      }
      FitBelowBound(pattern, width, pIdx + 1, advance);
      lineStr := lineStr + [ch];
      currentX := currentX + charW;
      pIdx := pIdx + 1;
    }
  }

  /** The row loop of fillPattern: one copy of the line per whole line
      height that fits in the height. */
  method RepeatRows(lineStr: string, height: nat, lineHeight: nat) returns (result: string)
    requires lineHeight >= 1
    ensures result == Text(Copies(lineStr, height / lineHeight))
  {
    result := "";
    var y: nat := 0;
    ghost var k: nat := 0;
    while y < height
      invariant y == k * lineHeight && y <= height && (k + 1) * lineHeight == y + lineHeight
      invariant result == Text(Copies(lineStr, k))
      decreases height - y
    {
      if y + lineHeight > height {
        break;
      }
      TextAppend(Copies(lineStr, k), [lineStr]);
      assert Copies(lineStr, k) + [lineStr] == Copies(lineStr, k + 1);
      assert Text([lineStr]) == lineStr + "\n" + Text([]);
      result := result + lineStr + "\n";
      y := y + lineHeight;
      k := k + 1;
    }
    assert k * lineHeight <= height < (k + 1) * lineHeight;
    QuotientUnique(height, lineHeight, k);
  }

  /** fillPattern: no text when the pattern measures zero width, otherwise
      the fill line repeated once per row. */
  method FillPattern(inputPattern: string, naturalWidth: nat, naturalHeight: nat, lineHeight: nat,
                     advance: char -> real) returns (r: Option<string>)
    requires lineHeight >= 1 && forall c :: advance(c) >= 0.0
    ensures var p := PatternOrDefault(inputPattern);
              TextWidth(p, advance) == 0.0 ==> r == None
    ensures var p := PatternOrDefault(inputPattern);
              TextWidth(p, advance) != 0.0 ==>
                NonNegative(p, advance) && TextWidth(p, advance) > 0.0 &&
                r == Some(Text(Copies(FitLine(p, OrDefault(naturalWidth, 800), advance),
                                      OrDefault(naturalHeight, 600) / lineHeight)))
  {
    var pattern := PatternOrDefault(inputPattern);
    var width := OrDefault(naturalWidth, 800);
    var height := OrDefault(naturalHeight, 600);
    var patternWidth := TextWidth(pattern, advance);
    TextWidthNonNegative(pattern, advance);
    if patternWidth == 0.0 {
      return None;
    }
    var lineStr := FillLine(pattern, width, advance);
    var result := RepeatRows(lineStr, height, lineHeight);
    r := Some(result);
  }

  /** The fill text has one line per row, each the fill line, which fits
      in the width and is a repetition of the pattern. */
  lemma FillShape(p: string, width: nat, height: nat, lineHeight: nat, advance: char -> real)
    requires p != [] && '\n' !in p && NonNegative(p, advance) && TextWidth(p, advance) > 0.0
    requires lineHeight >= 1
    ensures var line := FitLine(p, width, advance);
              Lines(Text(Copies(line, height / lineHeight))) == Copies(line, height / lineHeight) &&
              TextWidth(line, advance) <= width as real &&
              forall i :: 0 <= i < |line| ==> line[i] == p[i % |p|]
  {
    var line := FitLine(p, width, advance);
    assert '\n' !in line;
    LinesOfText(Copies(line, height / lineHeight));
  }

  /** The default pattern "-#" with a 6-pixel "-" and an 8-pixel "#" in a
      21-pixel-wide image gives the line "-#-": it measures 20 pixels, and the
      next "#" would end at 28. */
  lemma DefaultPatternExample()
    ensures FitLine("-#", 21, c => if c == '-' then 6.0 else 8.0) == "-#-"
  {
    var adv: char -> real := c => if c == '-' then 6.0 else 8.0;
    var p := "-#";
    assert TextWidth(p, adv) == 14.0 by {
      assert p[..1] == "-" && "-"[..0] == "";
    }
    assert NonNegative(p, adv);
    assert Cycle(p, 3) == "-#-" && Cycle(p, 4) == "-#-#";
    assert TextWidth("-#-", adv) == 20.0 by {
      assert "-#-"[..2] == p;
    }
    assert TextWidth("-#-#", adv) == 28.0 by {
      assert "-#-#"[..3] == "-#-";
    }
    FitLineIsLongest(p, 21, adv, 3);
    FitLineIsLongest(p, 21, adv, 4);
  }
}
