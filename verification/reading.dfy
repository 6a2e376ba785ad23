/** The reading-time estimate posts carry: `calculateReadingTime` of posts.service.ts. */
module Reading {
  import opened Text

  const WordsPerMinute: nat := 200

  /** `content.split(/\s+/)`: the pieces between maximal runs of whitespace. A leading or
      trailing run yields an empty piece at that end, and the empty string yields one
      empty piece. */
  function Split(s: string): (pieces: seq<string>)
    ensures |pieces| >= 1
    ensures forall k, j :: 0 <= k < |pieces| && 0 <= j < |pieces[k]| ==> !IsSpace(pieces[k][j])
    decreases |s|
  {
    if |s| == 0 then [[]]
    else if IsSpace(s[0]) then [[]] + Split(SkipWhile(s[1..], IsSpace))
    else
      var rest := Split(s[1..]);
      [[s[0]] + rest[0]] + rest[1..]
  }

  /** `.length` of the split. */
  function WordCount(s: string): nat {
    |Split(s)|
  }

  /** The number of maximal whitespace runs in `s`, counted independently of `Split`:
      positions holding whitespace that do not follow whitespace (`afterSpace` tells
      whether the character before `s` was whitespace). */
  function SpaceRuns(s: string, afterSpace: bool): nat {
    if |s| == 0 then 0
    else (if IsSpace(s[0]) && !afterSpace then 1 else 0) + SpaceRuns(s[1..], IsSpace(s[0]))
  }

  lemma {:induction false} SpaceRunsSkip(s: string)
    ensures SpaceRuns(s, true) == SpaceRuns(SkipWhile(s, IsSpace), false)
  {
    if |s| > 0 {
      SpaceRunsSkip(s[1..]);
    }
  }

  /** The word count is one more than the number of whitespace runs. */
  lemma {:induction false} WordCountIsRunsPlusOne(s: string)
    ensures WordCount(s) == 1 + SpaceRuns(s, false)
    decreases |s|
  {
    if |s| > 0 {
      if IsSpace(s[0]) {
        WordCountIsRunsPlusOne(SkipWhile(s[1..], IsSpace));
        SpaceRunsSkip(s[1..]);
      } else {
        WordCountIsRunsPlusOne(s[1..]);
      }
    }
  }

  /** Concatenating a sequence of strings. */
  function Concat(pieces: seq<string>): string {
    if |pieces| == 0 then [] else pieces[0] + Concat(pieces[1..])
  }

  /** `s` with its whitespace removed. */
  function RemoveSpaces(s: string): string {
    if |s| == 0 then []
    else (if IsSpace(s[0]) then [] else [s[0]]) + RemoveSpaces(s[1..])
  }

  lemma {:induction false} RemoveSpacesSkip(s: string)
    ensures RemoveSpaces(SkipWhile(s, IsSpace)) == RemoveSpaces(s)
  {
    if |s| > 0 && IsSpace(s[0]) {
      RemoveSpacesSkip(s[1..]);
    }
  }

  /** The split loses only whitespace: its pieces put together are the content without
      its whitespace. */
  lemma {:induction false} SplitKeepsText(s: string)
    ensures Concat(Split(s)) == RemoveSpaces(s)
    decreases |s|
  {
    if |s| > 0 {
      if IsSpace(s[0]) {
        var t := SkipWhile(s[1..], IsSpace);
        SplitKeepsText(t);
        RemoveSpacesSkip(s[1..]);
        assert ([[]] + Split(t))[1..] == Split(t);
      } else {
        var rest := Split(s[1..]);
        SplitKeepsText(s[1..]);
        var pieces := [[s[0]] + rest[0]] + rest[1..];
        assert pieces[1..] == rest[1..];
        assert Concat(rest) == rest[0] + Concat(rest[1..]);
      }
    }
  }

  /** `Math.ceil(wordCount / 200)`; exact, since word counts are far below 2^53. */
  function Minutes(wordCount: nat): (m: nat)
    ensures wordCount <= m * WordsPerMinute
    ensures m == 0 || (m - 1) * WordsPerMinute < wordCount
  {
    (wordCount + WordsPerMinute - 1) / WordsPerMinute
  }

  const Suffix := " min read"

  /** `${minutes} min read`. */
  function Label(minutes: nat): string {
    NatToDecimal(minutes) + Suffix
  }

  /** `calculateReadingTime(content)`: a decimal number of minutes, at least one and the
      ceiling of the word count over 200, followed by " min read". */
  function CalculateReadingTime(content: string): (text: string)
    ensures |text| > |Suffix| && text[|text| - |Suffix|..] == Suffix
    ensures AllDigits(text[..|text| - |Suffix|]) && text[0] != '0'
    ensures var m := DecimalValue(text[..|text| - |Suffix|]);
      m >= 1 && (m - 1) * WordsPerMinute < WordCount(content) <= m * WordsPerMinute
  {
    var m := Minutes(WordCount(content));
    LabelRoundTrip(m);
    ReadingTimeBounds(content);
    Label(m)
  }

  /** The estimate is at least one minute, and it is the ceiling of the word count over 200. */
  lemma ReadingTimeBounds(content: string)
    ensures var m := Minutes(WordCount(content));
      m >= 1 && (m - 1) * WordsPerMinute < WordCount(content) <= m * WordsPerMinute
  {
  }

  /** The label reads back as the minutes followed by " min read". */
  lemma LabelRoundTrip(minutes: nat)
    ensures var t := Label(minutes);
      |t| > |Suffix| && t[|t| - |Suffix|..] == Suffix
      && AllDigits(t[..|t| - |Suffix|]) && DecimalValue(t[..|t| - |Suffix|]) == minutes
  {
    var t := Label(minutes);
    assert t[..|t| - |Suffix|] == NatToDecimal(minutes);
    DecimalRoundTrip(minutes);
  }

  /** Empty content still counts as one word, hence one minute. */
  lemma EmptyContent()
    ensures WordCount("") == 1 && CalculateReadingTime("") == "1 min read"
  {
    assert WordCount("") == 1;
    assert Minutes(1) == 1;
    assert NatToDecimal(1) == "1";
    assert CalculateReadingTime("") == Label(1);
  }

  /** Leading and trailing whitespace each add an empty piece: " a b " counts as 4. */
  lemma EdgeWhitespaceCounts()
    ensures WordCount(" a b ") == 4
  {
    WordCountIsRunsPlusOne(" a b ");
  }
}
