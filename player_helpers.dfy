/**
 * Two helpers of the player page: the clock display of a playback position
 * and the removal of discontinuity markers from an HLS (M3U8) playlist.
 */
module PlayerHelpers {
  import opened Wrappers
  import opened Strings

  /** `formatTime` on whole seconds: `MM:SS` below an hour, `HH:MM:SS` from an hour on. */
  function FormatTime(seconds: nat): (text: string)
    ensures seconds == 0 ==> text == "00:00"
    ensures seconds < 3600 ==> |text| == 5 && text[2] == ':'
    ensures seconds >= 3600 ==> |text| >= 8 && text[|text| - 3] == ':' && text[|text| - 6] == ':'
  {
    if seconds == 0 then "00:00"
    else
      var hours := seconds / 3600;
      var minutes := (seconds % 3600) / 60;
      var remainingSeconds := seconds % 60;
      if hours == 0 then Pad2(minutes) + ":" + Pad2(remainingSeconds)
      else Pad2(hours) + ":" + Pad2(minutes) + ":" + Pad2(remainingSeconds)
  }

  predicate AllDigits(s: string) {
    forall i :: 0 <= i < |s| ==> IsDigit(s[i])
  }

  /** An independent reading of a clock display: `M:S` or `H:M:S` back to seconds. */
  function ParseClock(text: string): Option<nat> {
    var p := Split(text, ':');
    if exists i :: 0 <= i < |p| && !AllDigits(p[i]) then None
    else if |p| == 2 then Some(ParseDecimal(p[0]) * 60 + ParseDecimal(p[1]))
    else if |p| == 3 then Some(ParseDecimal(p[0]) * 3600 + ParseDecimal(p[1]) * 60 + ParseDecimal(p[2]))
    else None
  }

  lemma NoColonInPad2(n: nat)
    ensures ':' !in Pad2(n)
  {
    var s := Pad2(n);
    forall i | 0 <= i < |s| ensures s[i] != ':' {
      assert IsDigit(s[i]);
    }
  }

  lemma SplitTwo(a: nat, b: nat)
    ensures Split(Pad2(a) + ":" + Pad2(b), ':') == [Pad2(a), Pad2(b)]
  {
    NoColonInPad2(a);
    NoColonInPad2(b);
    SplitAfterPiece(Pad2(a), ':', Pad2(b));
    SplitNoSeparator(Pad2(b), ':');
  }

  lemma SplitThree(a: nat, b: nat, c: nat)
    ensures Split(Pad2(a) + ":" + Pad2(b) + ":" + Pad2(c), ':') == [Pad2(a), Pad2(b), Pad2(c)]
  {
    NoColonInPad2(a);
    SplitAfterPiece(Pad2(a), ':', Pad2(b) + ":" + Pad2(c));
    assert Pad2(a) + ":" + Pad2(b) + ":" + Pad2(c) == Pad2(a) + [':'] + (Pad2(b) + ":" + Pad2(c));
    SplitTwo(b, c);
  }

  /** The zero case agrees with the general layout. */
  lemma FormatTimeLayout(seconds: nat)
    ensures seconds < 3600 ==> FormatTime(seconds) == Pad2(seconds / 60) + ":" + Pad2(seconds % 60)
    ensures seconds >= 3600 ==>
      FormatTime(seconds) == Pad2(seconds / 3600) + ":" + Pad2((seconds % 3600) / 60) + ":" + Pad2(seconds % 60)
  {
    if seconds == 0 {
      assert NatToString(0) == "0";
      assert Pad2(0) == "00";
    }
  }

  /**
   * The fields of the display: minutes and seconds are two digits in 0..59,
   * hours (when shown) are at least two digits and not capped.
   */
  lemma FormatTimeFields(seconds: nat)
    ensures var p := Split(FormatTime(seconds), ':');
      && (forall i :: 0 <= i < |p| ==> AllDigits(p[i]))
      && (seconds < 3600 ==>
        && |p| == 2 && |p[0]| == 2 && |p[1]| == 2
        && ParseDecimal(p[0]) == seconds / 60 < 60
        && ParseDecimal(p[1]) == seconds % 60)
      && (seconds >= 3600 ==>
        && |p| == 3 && |p[0]| >= 2 && |p[1]| == 2 && |p[2]| == 2
        && ParseDecimal(p[0]) == seconds / 3600
        && ParseDecimal(p[1]) == (seconds % 3600) / 60 < 60
        && ParseDecimal(p[2]) == seconds % 60)
  {
    FormatTimeLayout(seconds);
    var h, m, s := seconds / 3600, (seconds % 3600) / 60, seconds % 60;
    if seconds < 3600 {
      SplitTwo(seconds / 60, s);
      ParsePad2(seconds / 60);
      ParsePad2(s);
    } else {
      SplitThree(h, m, s);
      ParsePad2(h);
      ParsePad2(m);
      ParsePad2(s);
    }
  }

  /** Euclidean division by 60 is determined by quotient and remainder. */
  lemma DivModSixty(x: nat, q: nat, r: nat)
    requires x == q * 60 + r && r < 60
    ensures x / 60 == q && x % 60 == r
  { }

  /** The fields shown add back up to the position. */
  lemma ClockArithmetic(seconds: nat)
    ensures (seconds / 60) * 60 + seconds % 60 == seconds
    ensures (seconds / 3600) * 3600 + ((seconds % 3600) / 60) * 60 + seconds % 60 == seconds
  {
    var h, r := seconds / 3600, seconds % 3600;
    var m, s := r / 60, r % 60;
    assert seconds == h * 3600 + r;
    assert r == m * 60 + s;
    DivModSixty(seconds, h * 60 + m, s);
  }

  /** Reading the display back gives the position: `h*3600 + m*60 + s`. */
  lemma FormatTimeRoundTrip(seconds: nat)
    ensures ParseClock(FormatTime(seconds)) == Some(seconds)
  {
    FormatTimeFields(seconds);
    ClockArithmetic(seconds);
    var p := Split(FormatTime(seconds), ':');
    assert !exists i :: 0 <= i < |p| && !AllDigits(p[i]);
    if seconds < 3600 {
      var m, s := ParseDecimal(p[0]), ParseDecimal(p[1]);
      assert m * 60 + s == seconds;
      assert ParseClock(FormatTime(seconds)) == Some(m * 60 + s);
    } else {
      var h, m, s := ParseDecimal(p[0]), ParseDecimal(p[1]), ParseDecimal(p[2]);
      assert h * 3600 + m * 60 + s == seconds;
      assert ParseClock(FormatTime(seconds)) == Some(h * 3600 + m * 60 + s);
    }
  }

  const DiscontinuityTag: string := "#EXT-X-DISCONTINUITY"

  /** The lines that do not carry the tag, in their order. */
  function AdFree(lines: seq<string>): (kept: seq<string>)
    ensures forall i :: 0 <= i < |kept| ==> kept[i] in lines && !Contains(kept[i], DiscontinuityTag)
    ensures forall i :: 0 <= i < |lines| && !Contains(lines[i], DiscontinuityTag) ==> lines[i] in kept
    ensures |kept| <= |lines|
    decreases |lines|
  {
    if lines == [] then []
    else
      var init, last := lines[..|lines| - 1], lines[|lines| - 1];
      assert lines == init + [last];
      AdFree(init) + (if Contains(last, DiscontinuityTag) then [] else [last])
  }

  /** A single line is kept exactly when it has no tag. */
  lemma AdFreeSingleton(x: string)
    ensures AdFree([x]) == if Contains(x, DiscontinuityTag) then [] else [x]
  {
    assert [x][..0] == [];
  }

  /** Appending one line appends it to the result unless it has the tag. */
  lemma AdFreeSnoc(lines: seq<string>, x: string)
    ensures AdFree(lines + [x]) == AdFree(lines) + (if Contains(x, DiscontinuityTag) then [] else [x])
  {
    assert (lines + [x])[..|lines|] == lines;
  }

  /** One step of `AdFreeAppend`: the property survives appending a line to `b`. */
  lemma AdFreeAppendStep(a: seq<string>, b: seq<string>, x: string)
    requires AdFree(a + b) == AdFree(a) + AdFree(b)
    ensures AdFree(a + (b + [x])) == AdFree(a) + AdFree(b + [x])
  {
    ConcatAssoc(a, b, [x]);
    AdFreeSnoc(a + b, x);
    AdFreeSnoc(b, x);
    ConcatAssoc(AdFree(a), AdFree(b), if Contains(x, DiscontinuityTag) then [] else [x]);
  }

  /**
   * Filtering a concatenation filters each part in turn; with the singleton
   * case this pins the result down: the kept lines keep their order and
   * their repeats.
   */
  lemma {:induction false} AdFreeAppend(a: seq<string>, b: seq<string>)
    ensures AdFree(a + b) == AdFree(a) + AdFree(b)
    decreases |b|
  {
    if b == [] {
      assert a + b == a;
    } else {
      var init, last := b[..|b| - 1], b[|b| - 1];
      assert b == init + [last];
      AdFreeAppend(a, init);
      AdFreeAppendStep(a, init, last);
    }
  }

  /** `filterAdsFromM3U8`: the content split on `\n`, tagged lines dropped, joined back. */
  function FilterAds(content: string): string {
    if content == "" then "" else Join(AdFree(Split(content, '\n')), '\n')
  }

  /** Dropping nothing: lines without the tag are kept as they are. */
  lemma {:induction false} AdFreeOfClean(lines: seq<string>)
    requires forall i :: 0 <= i < |lines| ==> !Contains(lines[i], DiscontinuityTag)
    ensures AdFree(lines) == lines
    decreases |lines|
  {
    if lines != [] {
      AdFreeOfClean(lines[..|lines| - 1]);
      assert lines[..|lines| - 1] + [lines[|lines| - 1]] == lines;
    }
  }

  /** Every kept line is tag-free and has no line break. */
  lemma {:induction false} AdFreeLines(lines: seq<string>)
    requires forall i :: 0 <= i < |lines| ==> '\n' !in lines[i]
    ensures forall i :: 0 <= i < |AdFree(lines)| ==> '\n' !in AdFree(lines)[i] && !Contains(AdFree(lines)[i], DiscontinuityTag)
  {
    var kept := AdFree(lines);
    forall i | 0 <= i < |kept| ensures '\n' !in kept[i] && !Contains(kept[i], DiscontinuityTag) {
      assert kept[i] in kept;
      var j :| 0 <= j < |lines| && lines[j] == kept[i];
    }
  }

  /** Filtering twice is filtering once. */
  lemma FilterAdsIdempotent(content: string)
    ensures FilterAds(FilterAds(content)) == FilterAds(content)
  {
    if content != "" {
      var kept := AdFree(Split(content, '\n'));
      AdFreeLines(Split(content, '\n'));
      if kept != [] && Join(kept, '\n') != "" {
        SplitJoin(kept, '\n');
        AdFreeOfClean(kept);
      }
    }
  }

  /** A playlist without the tag comes back unchanged. */
  lemma TagFreeUnchanged(content: string)
    requires !Contains(content, DiscontinuityTag)
    ensures FilterAds(content) == content
  {
    if content != "" {
      var lines := Split(content, '\n');
      forall i | 0 <= i < |lines| ensures !Contains(lines[i], DiscontinuityTag) {
        if Contains(lines[i], DiscontinuityTag) {
          ContainsInJoin(lines, '\n', i, DiscontinuityTag);
        }
      }
      AdFreeOfClean(lines);
    }
  }

  /** The `for` loop of `filterAdsFromM3U8`. */
  method FilterAdsFromM3U8(content: string) returns (r: string)
    ensures r == FilterAds(content)
  {
    if content == "" {
      return "";
    }
    var lines := Split(content, '\n');
    var filteredLines: seq<string> := [];
    for i := 0 to |lines|
      invariant filteredLines == AdFree(lines[..i])
    {
      assert lines[..i + 1][..i] == lines[..i];
      var line := lines[i];
      if !Contains(line, DiscontinuityTag) {
        filteredLines := filteredLines + [line];
      }
    }
    assert lines[..|lines|] == lines;
    r := Join(filteredLines, '\n');
  }
}
