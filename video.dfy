/** The two pure rules of the video module: the `HH:MM:SS` text of a
    duration, and the score by which a subtitle file is matched to a video
    and the choice of the best-scoring one. */
module Video {
  import opened Wrappers
  import opened Ebml

  // Decimal text.

  predicate IsDigit(c: char)
  {
    '0' <= c <= '9'
  }

  predicate AllDigits(s: string)
  {
    forall i :: 0 <= i < |s| ==> IsDigit(s[i])
  }

  function DigitChar(d: nat): (c: char)
    requires d < 10
    ensures IsDigit(c) && c as int - '0' as int == d
  {
    ('0' as int + d) as char
  }

  /** The digits of `n` without leading zeros, "0" for zero. */
  function Decimal(n: nat): (s: string)
    ensures s != [] && AllDigits(s)
    ensures n < 10 <==> |s| == 1
    ensures n >= 10 ==> s[0] != '0'
  {
    if n < 10 then [DigitChar(n)] else Decimal(n / 10) + [DigitChar(n % 10)]
  }

  /** Reads decimal digits from the left: `acc` is the value read so far. */
  function ReadDecimal(acc: nat, s: string): nat
    requires AllDigits(s)
    decreases |s|
  {
    if s == [] then acc else ReadDecimal(acc * 10 + (s[0] as int - '0' as int), s[1..])
  }

  lemma {:induction false} ReadDecimalAppend(acc: nat, s: string, c: char)
    requires AllDigits(s) && IsDigit(c)
    ensures AllDigits(s + [c])
    decreases |s|
    ensures ReadDecimal(acc, s + [c]) == ReadDecimal(acc, s) * 10 + (c as int - '0' as int)
  {
    if s != [] {
      assert (s + [c])[0] == s[0] && (s + [c])[1..] == s[1..] + [c];
      ReadDecimalAppend(acc * 10 + (s[0] as int - '0' as int), s[1..], c);
    }
  }

  /** The digits read back as the number. */
  lemma {:induction false} DecimalRoundTrip(n: nat)
    ensures ReadDecimal(0, Decimal(n)) == n
  {
    if n >= 10 {
      DecimalRoundTrip(n / 10);
      ReadDecimalAppend(0, Decimal(n / 10), DigitChar(n % 10));
    }
  }

  /** `{:02}`: the decimal digits, with a leading zero below ten. */
  function Pad2(n: nat): (s: string)
    ensures AllDigits(s) && |s| >= 2
    ensures n < 100 <==> |s| == 2
    ensures n < 10 ==> s == ['0', DigitChar(n)]
    ensures n >= 10 ==> s == Decimal(n)
  {
    if n < 10 then ['0'] + Decimal(n) else Decimal(n)
  }

  /** A padded field reads back as the number. */
  lemma {:induction false} Pad2RoundTrip(n: nat)
    ensures ReadDecimal(0, Pad2(n)) == n
  {
    DecimalRoundTrip(n);
  }

  // The duration text.

  datatype Clock = Clock(hours: nat, minutes: nat, seconds: nat) {
    function TotalSeconds(): nat
    {
      hours * 3600 + minutes * 60 + seconds
    }

    predicate Normal()
    {
      minutes < 60 && seconds < 60
    }
  }

  /** The split of `get_duration`: hours by 3600, the minutes left over,
      and the seconds modulo 60. */
  function SplitSeconds(total: nat): (c: Clock)
    ensures c.Normal() && c.TotalSeconds() == total
  {
    Clock(total / 3600, total % 3600 / 60, total % 60)
  }

  /** The split is the only normal clock with that many seconds. */
  lemma {:induction false} SplitSecondsUnique(c: Clock)
    requires c.Normal()
    ensures SplitSeconds(c.TotalSeconds()) == c
  {
    var t := c.TotalSeconds();
    var r := c.minutes * 60 + c.seconds;
    assert t / 3600 == c.hours && t % 3600 == r;
    assert r / 60 == c.minutes && t % 60 == c.seconds;
  }

  /** `format!("{:02}:{:02}:{:02}", …)`. */
  function FormatClock(c: Clock): (s: string)
    ensures |s| == |Pad2(c.hours)| + |Pad2(c.minutes)| + |Pad2(c.seconds)| + 2
    ensures c.Normal() ==> |s| == |Pad2(c.hours)| + 6 && s[|s| - 3] == ':' && s[|s| - 6] == ':'
    ensures s[|Pad2(c.hours)|] == ':'
  {
    Pad2(c.hours) + ":" + Pad2(c.minutes) + ":" + Pad2(c.seconds)
  }

  /** The run of digits at the front of `s` and what follows it. */
  function DigitRun(s: string): (r: (string, string))
    ensures AllDigits(r.0) && r.0 + r.1 == s
    ensures r.1 != [] ==> !IsDigit(r.1[0])
  {
    if s == [] || !IsDigit(s[0]) then ([], s)
    else
      var rest := DigitRun(s[1..]);
      DigitsCons(s[0], rest.0);
      assert [s[0]] + rest.0 + rest.1 == [s[0]] + s[1..] == s;
      ([s[0]] + rest.0, rest.1)
  }

  lemma {:induction false} DigitsCons(c: char, t: string)
    requires IsDigit(c) && AllDigits(t)
    ensures AllDigits([c] + t)
  {
  }

  lemma {:induction false} DigitRunOf(a: string, b: string)
    requires AllDigits(a) && (b != [] ==> !IsDigit(b[0]))
    ensures DigitRun(a + b) == (a, b)
  {
    if a == [] {
      assert a + b == b;
    } else {
      assert (a + b)[0] == a[0] && (a + b)[1..] == a[1..] + b;
      DigitRunOf(a[1..], b);
      assert [a[0]] + a[1..] == a;
    }
  }

  /** Reads `HH:MM:SS` text: three non-empty digit runs separated by
      colons, nothing after the third. */
  function ParseClock(s: string): Option<Clock>
  {
    var (h, r1) := DigitRun(s);
    if h == [] || r1 == [] || r1[0] != ':' then None
    else
      var (m, r2) := DigitRun(r1[1..]);
      if m == [] || r2 == [] || r2[0] != ':' then None
      else
        var (sec, r3) := DigitRun(r2[1..]);
        if sec == [] || r3 != [] then None
        else Some(Clock(ReadDecimal(0, h), ReadDecimal(0, m), ReadDecimal(0, sec)))
  }

  /** Three non-empty digit runs joined by colons parse as their values. */
  lemma {:induction false} ParseClockOf(h: string, m: string, s: string)
    requires h != [] && m != [] && s != []
    requires AllDigits(h) && AllDigits(m) && AllDigits(s)
    ensures ParseClock(h + ":" + m + ":" + s) == Some(Clock(ReadDecimal(0, h), ReadDecimal(0, m), ReadDecimal(0, s)))
  {
    var r2 := ":" + s;
    var r1 := ":" + m + r2;
    assert h + ":" + m + ":" + s == h + r1;
    DigitRunOf(h, r1);
    assert r1[1..] == m + r2;
    DigitRunOf(m, r2);
    assert r2[1..] == s + [];
    DigitRunOf(s, []);
  }

  /** The text reads back as the clock it was made from. */
  lemma {:induction false} FormatClockRoundTrip(c: Clock)
    ensures ParseClock(FormatClock(c)) == Some(c)
  {
    ParseClockOf(Pad2(c.hours), Pad2(c.minutes), Pad2(c.seconds));
    Pad2RoundTrip(c.hours);
    Pad2RoundTrip(c.minutes);
    Pad2RoundTrip(c.seconds);
  }

  /** `get_duration`, given the outcome of the extraction as whole seconds
      (the float cast is not modelled): a failed extraction counts as zero
      seconds, and the answer is always `Ok`. */
  function GetDuration(extracted: Result<nat, MkvError>): (r: Result<string, string>)
    ensures r.Ok?
    ensures ParseClock(r.value) == Some(SplitSeconds(if extracted.Ok? then extracted.value else 0))
    ensures r == Ok(FormatClock(SplitSeconds(if extracted.Ok? then extracted.value else 0)))
  {
    var c := SplitSeconds(if extracted.Ok? then extracted.value else 0);
    FormatClockRoundTrip(c);
    Ok(FormatClock(c))
  }

  /** A failed extraction shows as zero. */
  lemma {:induction false} FailedDurationIsZero(e: MkvError)
    ensures GetDuration(Err(e)) == Ok("00:00:00")
  {
    SplitSecondsUnique(Clock(0, 0, 0));
    ZeroClockText();
  }

  lemma {:induction false} ZeroClockText()
    ensures FormatClock(Clock(0, 0, 0)) == "00:00:00"
  {
    assert DigitChar(0) == '0';
    var z := Pad2(0);
    assert z == "00";
    assert z + ":" + z + ":" + z == "00:00:00";
  }

  /** Fewer than 100 hours give exactly eight characters. */
  lemma {:induction false} DurationTextLength(total: nat)
    ensures |GetDuration(Ok(total)).value| >= 8
    ensures total < 360000 <==> |GetDuration(Ok(total)).value| == 8
  {
    var c := SplitSeconds(total);
    assert total < 360000 <==> c.hours < 100;
  }

  // Subtitle ranking.

  /** `str::contains`. */
  predicate Contains(s: string, t: string)
    decreases |s|
  {
    (|t| <= |s| && s[..|t|] == t) || (s != [] && Contains(s[1..], t))
  }

  /** `t` occurs in `s` at offset `i`. */
  predicate OccursAt(s: string, t: string, i: nat)
  {
    i + |t| <= |s| && s[i..i + |t|] == t
  }

  lemma {:induction false} ContainsOfOccurs(s: string, t: string, i: nat)
    requires OccursAt(s, t, i)
    decreases i
    ensures Contains(s, t)
  {
    if i > 0 {
      assert s[1..][i - 1..i - 1 + |t|] == s[i..i + |t|];
      ContainsOfOccurs(s[1..], t, i - 1);
    }
  }

  lemma {:induction false} OccursOfContains(s: string, t: string) returns (i: nat)
    requires Contains(s, t)
    decreases |s|
    ensures OccursAt(s, t, i)
  {
    if |t| <= |s| && s[..|t|] == t {
      i := 0;
    } else {
      var k := OccursOfContains(s[1..], t);
      assert s[1..][k..k + |t|] == s[k + 1..k + 1 + |t|];
      i := k + 1;
    }
  }

  /** Contains means `t` occurs at some offset of `s`. */
  lemma {:induction false} ContainsIff(s: string, t: string)
    ensures Contains(s, t) <==> exists i: nat :: OccursAt(s, t, i)
  {
    if exists i: nat :: OccursAt(s, t, i) {
      var i: nat :| OccursAt(s, t, i);
      ContainsOfOccurs(s, t, i);
    }
    if Contains(s, t) {
      var i := OccursOfContains(s, t);
    }
  }

  /** `to_ascii_lowercase`: A to Z become a to z, every other character
      stays. */
  function AsciiLower(s: string): (r: string)
    ensures |r| == |s|
    ensures forall i :: 0 <= i < |s| ==> if 'A' <= s[i] <= 'Z' then r[i] as int == s[i] as int + 32 else r[i] == s[i]
  {
    if s == [] then []
    else
      var c := s[0];
      var lower := if 'A' <= c <= 'Z' then (c as int + 32) as char else c;
      [lower] + AsciiLower(s[1..])
  }

  const LanguageKeywords: seq<string> := ["zh", "chs", "cht", "cn", "chinese", "chr", "简体", "简中", "繁中"]

  /** `language_keywords.iter().any(…)` over the lower-cased stem. */
  function AnyKeyword(lower: string, keywords: seq<string>): (b: bool)
    ensures b <==> exists k :: 0 <= k < |keywords| && Contains(lower, keywords[k])
  {
    if keywords == [] then false
    else Contains(lower, keywords[0]) || AnyKeyword(lower, keywords[1..])
  }

  /** The keyword test of the score: the lower-cased stem holds one of the
      language keywords. */
  function HasLanguageKeyword(stem: string): (b: bool)
    ensures b <==> exists k :: 0 <= k < |LanguageKeywords| && Contains(AsciiLower(stem), LanguageKeywords[k])
  {
    AnyKeyword(AsciiLower(stem), LanguageKeywords)
  }

  /** What `parse_series_info` found in the video's stem. */
  datatype SeriesInfo = SeriesInfo(isSeries: bool, season: nat, episode: nat)

  /** `S{:02}E{:02}` for a series, the empty string otherwise. */
  function SeriesPattern(info: SeriesInfo): (p: string)
    ensures !info.isSeries <==> p == []
    ensures info.isSeries ==> |p| == |Pad2(info.season)| + |Pad2(info.episode)| + 2 >= 6
    ensures info.isSeries ==> p[0] == 'S' && p[|Pad2(info.season)| + 1] == 'E'
    ensures info.isSeries && info.season < 100 && info.episode < 100 ==> |p| == 6
    ensures info.isSeries ==> p == "S" + Pad2(info.season) + "E" + Pad2(info.episode)
  {
    if info.isSeries then "S" + Pad2(info.season) + "E" + Pad2(info.episode) else ""
  }

  /** The key `max_by_key` ranks a subtitle by; `stem` is its file stem
      as text, if it has one. */
  function Score(videoStem: string, info: SeriesInfo, stem: Option<string>): (n: nat)
    ensures n <= 3
    ensures n == 0 <==> stem.None?
    ensures n == 3 <==> stem == Some(videoStem)
    ensures n == 2 <==> stem.Some? && stem.value != videoStem && HasLanguageKeyword(stem.value)
                        && (info.isSeries ==> Contains(stem.value, SeriesPattern(info)))
  {
    match stem
    case None => 0
    case Some(s) =>
      if s == videoStem then 3
      else if info.isSeries then
        if Contains(s, SeriesPattern(info)) && HasLanguageKeyword(s) then 2 else 1
      else if HasLanguageKeyword(s) then 2 else 1
  }

  /** A candidate file: its path and its file stem as text, if any. */
  datatype Subtitle = Subtitle(path: string, stem: Option<string>)

  /** The index `max_by_key` returns: a greatest key, the last of several
      equal ones. */
  function LastMaxIndex(keys: seq<nat>): (r: nat)
    requires keys != []
    ensures r < |keys|
    ensures forall j :: 0 <= j < |keys| ==> keys[j] <= keys[r]
    ensures forall j :: r < j < |keys| ==> keys[j] < keys[r]
  {
    if |keys| == 1 then 0
    else
      var p := LastMaxIndex(keys[..|keys| - 1]);
      if keys[|keys| - 1] >= keys[p] then |keys| - 1 else p
  }

  /** No other index has both properties. */
  lemma {:induction false} LastMaxIndexUnique(keys: seq<nat>, i: nat)
    requires i < |keys|
    requires forall j :: 0 <= j < |keys| ==> keys[j] <= keys[i]
    requires forall j :: i < j < |keys| ==> keys[j] < keys[i]
    ensures LastMaxIndex(keys) == i
  {
    var r := LastMaxIndex(keys);
    assert keys[r] <= keys[i] && keys[i] <= keys[r];
  }

  function Scores(videoStem: string, info: SeriesInfo, subtitles: seq<Subtitle>): (s: seq<nat>)
    ensures |s| == |subtitles|
    ensures forall i :: 0 <= i < |subtitles| ==> s[i] == Score(videoStem, info, subtitles[i].stem)
  {
    if subtitles == [] then []
    else [Score(videoStem, info, subtitles[0].stem)] + Scores(videoStem, info, subtitles[1..])
  }

  /** Candidate `i` has the highest score, and every later one a lower
      score. */
  predicate IsBestAt(videoStem: string, info: SeriesInfo, subtitles: seq<Subtitle>, i: nat)
    requires i < |subtitles|
  {
    && (forall j :: 0 <= j < |subtitles| ==> Score(videoStem, info, subtitles[j].stem) <= Score(videoStem, info, subtitles[i].stem))
    && (forall j :: i < j < |subtitles| ==> Score(videoStem, info, subtitles[j].stem) < Score(videoStem, info, subtitles[i].stem))
  }

  /** `choose_best_subtitle`: nothing when the video has no stem or there
      is no candidate; otherwise the last candidate of the highest score. */
  function ChooseBestSubtitle(videoStem: Option<string>, info: SeriesInfo, subtitles: seq<Subtitle>): (r: Option<Subtitle>)
    ensures r.None? <==> videoStem.None? || subtitles == []
    ensures r.Some? ==> exists i :: 0 <= i < |subtitles| && r.value == subtitles[i] && IsBestAt(videoStem.value, info, subtitles, i)
  {
    if videoStem.None? || subtitles == [] then None
    else
      var i := LastMaxIndex(Scores(videoStem.value, info, subtitles));
      Some(subtitles[i])
  }

  /** A subtitle whose stem is the video's own is always preferred: the
      choice then has that stem. */
  lemma {:induction false} ExactMatchIsChosen(videoStem: string, info: SeriesInfo, subtitles: seq<Subtitle>, k: nat)
    requires k < |subtitles| && subtitles[k].stem == Some(videoStem)
    ensures var r := ChooseBestSubtitle(Some(videoStem), info, subtitles);
      r.Some? && r.value.stem == Some(videoStem)
  {
    var r := ChooseBestSubtitle(Some(videoStem), info, subtitles);
    var i :| 0 <= i < |subtitles| && r.value == subtitles[i] && IsBestAt(videoStem, info, subtitles, i);
    assert Score(videoStem, info, subtitles[k].stem) == 3;
  }

  /** A stem other than the video's that holds the episode code and, once
      lower-cased, a language keyword, scores two. */
  lemma {:induction false} EpisodeAndKeywordScoreTwo(videoStem: string, info: SeriesInfo, stem: string, i: nat, k: nat, j: nat)
    requires stem != videoStem && k < |LanguageKeywords|
    requires info.isSeries ==> OccursAt(stem, SeriesPattern(info), i)
    requires OccursAt(AsciiLower(stem), LanguageKeywords[k], j)
    ensures Score(videoStem, info, Some(stem)) == 2
  {
    if info.isSeries {
      ContainsOfOccurs(stem, SeriesPattern(info), i);
    }
    ContainsOfOccurs(AsciiLower(stem), LanguageKeywords[k], j);
  }

  lemma {:induction false} EpisodeCodeS01E02()
    ensures SeriesPattern(SeriesInfo(true, 1, 2)) == "S01E02"
  {
    assert DigitChar(1) == '1' && DigitChar(2) == '2';
    assert Pad2(1) == "01" && Pad2(2) == "02";
  }

  /** A series stem with the episode code and a keyword in capitals. */
  lemma {:induction false} SeriesKeywordScoresTwo(videoStem: string, stem: string)
    requires videoStem == "Show.S01E02" && stem == "Show.S01E02.CHS"
    ensures Score(videoStem, SeriesInfo(true, 1, 2), Some(stem)) == 2
  {
    EpisodeCodeS01E02();
    assert stem[5..11] == "S01E02";
    var lower := AsciiLower(stem);
    assert lower[12] == 'c' && lower[13] == 'h' && lower[14] == 's';
    assert lower[12..15] == LanguageKeywords[1];
    assert |stem| != |videoStem|;
    EpisodeAndKeywordScoreTwo(videoStem, SeriesInfo(true, 1, 2), stem, 5, 1, 12);
  }
}
