/**
 * FormattingUtils.formatDurationAsWords: a millisecond count rendered as
 * "2 days, 3 hours, 1 minute". The source builds a DurationFormatUtils
 * pattern, renders it with plural unit words, turns "1 <plural>" into
 * "1 <singular>" with four regex passes, strips zero segments with
 * hard-coded English literals and trims. This module models that pipeline
 * step by step and proves it equal to a direct, count-aware phrase builder.
 */
module DurationWords {
  import opened Text

  const MillisPerSecond: nat := 1000
  const MillisPerMinute: nat := 60_000
  const MillisPerHour: nat := 3_600_000
  const MillisPerDay: nat := 86_400_000

  /** The resource strings time.second … time.seconds, as Res.get returns them. */
  datatype ResourceWords = ResourceWords(
    second: string, minute: string, hour: string, day: string,
    days: string, hours: string, minutes: string, seconds: string)

  /** An English resource bundle; time.hour and time.day are capitalised, as the source's lower-casing expects. */
  const EnglishWords := ResourceWords("second", "minute", "Hour", "Day", "days", "hours", "minutes", "seconds")

  datatype Unit = Day | Hour | Minute | Second

  /** Milliseconds in one unit (TimeUnit's fixed conversions; a day is always 24 hours). */
  function UnitMillis(u: Unit): nat
  {
    match u
    case Day => MillisPerDay
    case Hour => MillisPerHour
    case Minute => MillisPerMinute
    case Second => MillisPerSecond
  }

  /** The singular word the source substitutes; time.hour and time.day are lower-cased first. */
  function Singular(w: ResourceWords, u: Unit): string
  {
    match u
    case Day => ToLowerAscii(w.day)
    case Hour => ToLowerAscii(w.hour)
    case Minute => w.minute
    case Second => w.second
  }

  function Plural(w: ResourceWords, u: Unit): string
  {
    match u
    case Day => w.days
    case Hour => w.hours
    case Minute => w.minutes
    case Second => w.seconds
  }

  // ---------------------------------------------------------------------
  // The pipeline as the source runs it
  // ---------------------------------------------------------------------

  /** A DurationFormatUtils pattern, already lexed: a field letter or a quoted literal. */
  datatype Token = Field(unit: Unit) | Literal(text: string)

  /**
   * The pattern formatDurationAsWords builds: a days field only from one
   * full day on, a seconds field only when asked for, hours and minutes always.
   */
  function DurationPattern(durationMillis: int, showSeconds: bool, w: ResourceWords): seq<Token>
  {
    (if durationMillis >= MillisPerDay then [Field(Day), Literal(" " + w.days + ", ")] else [])
    + (if showSeconds
       then [Field(Hour), Literal(" " + w.hours + ", "), Field(Minute), Literal(" " + w.minutes + ", "),
             Field(Second), Literal(" " + w.seconds)]
       else [Field(Hour), Literal(" " + w.hours + ", "), Field(Minute), Literal(" " + w.minutes)])
  }

  datatype Fields = Fields(days: nat, hours: nat, minutes: nat, seconds: nat)

  function FieldValue(f: Fields, u: Unit): nat
  {
    match u
    case Day => f.days
    case Hour => f.hours
    case Minute => f.minutes
    case Second => f.seconds
  }

  /**
   * DurationFormatUtils.formatDuration's split: each field that occurs in the
   * pattern takes whole units off the running remainder, largest unit first.
   */
  function SplitDuration(millis: nat, pattern: seq<Token>): Fields
  {
    var days := if Field(Day) in pattern then millis / MillisPerDay else 0;
    var r1: nat := millis - days * MillisPerDay;
    var hours := if Field(Hour) in pattern then r1 / MillisPerHour else 0;
    var r2: nat := r1 - hours * MillisPerHour;
    var minutes := if Field(Minute) in pattern then r2 / MillisPerMinute else 0;
    var r3: nat := r2 - minutes * MillisPerMinute;
    var seconds := if Field(Second) in pattern then r3 / MillisPerSecond else 0;
    Fields(days, hours, minutes, seconds)
  }

  /** Fields print as plain decimals (a one-letter field pads to width 1, i.e. not at all). */
  function RenderPattern(pattern: seq<Token>, f: Fields): string
    decreases |pattern|
  {
    if pattern == [] then ""
    else
      (match pattern[0]
       case Field(u) => NatToString(FieldValue(f, u))
       case Literal(t) => t)
      + RenderPattern(pattern[1..], f)
  }

  /** DurationFormatUtils.formatDuration(millis, pattern). */
  function FormatDuration(millis: nat, pattern: seq<Token>): string
  {
    RenderPattern(pattern, SplitDuration(millis, pattern))
  }

  /** StringUtils.replacePattern(s, "^1 P|\\b1 P", "1 S"). */
  function SingularizePass(s: string, plural: string, singular: string): string
  {
    ReplaceAtBoundary(s, "1 " + plural, "1 " + singular, false)
  }

  /** The four singularisation passes, seconds first and days last. */
  function Singularize(s: string, w: ResourceWords): string
  {
    var s1 := SingularizePass(s, w.seconds, w.second);
    var s2 := SingularizePass(s1, w.minutes, w.minute);
    var s3 := SingularizePass(s2, w.hours, ToLowerAscii(w.hour));
    SingularizePass(s3, w.days, ToLowerAscii(w.day))
  }

  /** The zero-stripping passes; their literals are English whatever the resource words are. */
  function StripZeroValues(s: string): string
  {
    var s1 := ReplaceAll(s, ", 0 seconds", "");
    var s2 := ReplaceAll(s1, ", 0 minutes", "");
    var s3 := ReplaceAll(s2, ", 0 hours", "");
    var s4 := StripPrefix(s3, "0 days, ");
    var s5 := StripPrefix(s4, "0 hours, ");
    var s6 := StripPrefix(s5, "0 minutes, ");
    StripPrefix(s6, "0 seconds, ")
  }

  /** formatDurationAsWords(durationMillis, showSeconds, showZeroValues). */
  function FormatDurationAsWords(w: ResourceWords, durationMillis: int, showSeconds: bool, showZeroValues: bool): (r: string)
    ensures durationMillis <= 0 ==> r == ""
  {
    var duration := if durationMillis > 0
      then FormatDuration(durationMillis, DurationPattern(durationMillis, showSeconds, w))
      else "";
    var singular := Singularize(duration, w);
    var stripped := if !showZeroValues then StripZeroValues(singular) else singular;
    Trim(stripped)
  }

  /** formatDurationAsWords(durationMillis): no seconds, zero values kept. */
  function FormatDurationAsWordsDefault(w: ResourceWords, durationMillis: int): (r: string)
    ensures durationMillis <= 0 ==> r == ""
  {
    FormatDurationAsWords(w, durationMillis, false, true)
  }

  // ---------------------------------------------------------------------
  // The reference: a phrase built unit by unit
  // ---------------------------------------------------------------------

  datatype Segment = Segment(count: nat, unit: Unit)

  function Units(segs: seq<Segment>): seq<Unit>
    decreases |segs|
  {
    if segs == [] then [] else [segs[0].unit] + Units(segs[1..])
  }

  /** The time the segments add up to. */
  function Total(segs: seq<Segment>): nat
    decreases |segs|
  {
    if segs == [] then 0 else segs[0].count * UnitMillis(segs[0].unit) + Total(segs[1..])
  }

  /**
   * The segments of a positive duration read as a clock: whole days, then
   * the hour of the day, the minute of the hour and the second of the minute.
   */
  function DurationSegments(ms: nat, showSeconds: bool): (segs: seq<Segment>)
    ensures Units(segs) == (if ms >= MillisPerDay then [Day] else []) + [Hour, Minute] + (if showSeconds then [Second] else [])
    ensures forall s :: s in segs && s.unit == Hour ==> s.count < 24
    ensures forall s :: s in segs && (s.unit == Minute || s.unit == Second) ==> s.count < 60
    ensures Total(segs) <= ms < Total(segs) + (if showSeconds then MillisPerSecond else MillisPerMinute)
  {
    var hms := [Segment((ms / MillisPerHour) % 24, Hour), Segment((ms / MillisPerMinute) % 60, Minute)]
      + (if showSeconds then [Segment((ms / MillisPerSecond) % 60, Second)] else []);
    var segs := (if ms >= MillisPerDay then [Segment(ms / MillisPerDay, Day)] else []) + hms;
    ClockReading(ms, showSeconds);
    UnitsAndTotal(segs, ms, showSeconds);
    segs
  }

  lemma ClockReading(ms: nat, showSeconds: bool)
    ensures ms / MillisPerMinute == (ms / MillisPerSecond) / 60
    ensures ms / MillisPerHour == (ms / MillisPerMinute) / 60
    ensures ms / MillisPerDay == (ms / MillisPerHour) / 24
  {
  }

  lemma UnitsAndTotal(segs: seq<Segment>, ms: nat, showSeconds: bool)
    requires ms / MillisPerMinute == (ms / MillisPerSecond) / 60
    requires ms / MillisPerHour == (ms / MillisPerMinute) / 60
    requires ms / MillisPerDay == (ms / MillisPerHour) / 24
    requires segs == (if ms >= MillisPerDay then [Segment(ms / MillisPerDay, Day)] else [])
      + [Segment((ms / MillisPerHour) % 24, Hour), Segment((ms / MillisPerMinute) % 60, Minute)]
      + (if showSeconds then [Segment((ms / MillisPerSecond) % 60, Second)] else [])
    ensures Units(segs) == (if ms >= MillisPerDay then [Day] else []) + [Hour, Minute] + (if showSeconds then [Second] else [])
    ensures forall s :: s in segs && s.unit == Hour ==> s.count < 24
    ensures forall s :: s in segs && (s.unit == Minute || s.unit == Second) ==> s.count < 60
    ensures Total(segs) <= ms < Total(segs) + (if showSeconds then MillisPerSecond else MillisPerMinute)
  {
    var d := ms / MillisPerDay;
    var hr := ms / MillisPerHour;
    ClockSegments(segs, ms >= MillisPerDay, d, hr % 24, (ms / MillisPerMinute) % 60, (ms / MillisPerSecond) % 60, showSeconds);
    assert hr == d * 24 + hr % 24;
    ClockBounds(ms, showSeconds);
    if ms < MillisPerDay {
      assert d == 0;
    }
  }

  /** The clock's segments, with their counts left abstract. */
  lemma ClockSegments(segs: seq<Segment>, hasDays: bool, d: nat, h: nat, m: nat, s: nat, showSeconds: bool)
    requires h < 24 && m < 60 && s < 60
    requires segs == (if hasDays then [Segment(d, Day)] else [])
      + [Segment(h, Hour), Segment(m, Minute)]
      + (if showSeconds then [Segment(s, Second)] else [])
    ensures Units(segs) == (if hasDays then [Day] else []) + [Hour, Minute] + (if showSeconds then [Second] else [])
    ensures forall x :: x in segs && x.unit == Hour ==> x.count < 24
    ensures forall x :: x in segs && (x.unit == Minute || x.unit == Second) ==> x.count < 60
    ensures Total(segs) == (if hasDays then d * MillisPerDay else 0) + h * MillisPerHour + m * MillisPerMinute
      + (if showSeconds then s * MillisPerSecond else 0)
  {
    var hms := [Segment(h, Hour), Segment(m, Minute)] + (if showSeconds then [Segment(s, Second)] else []);
    ClockTail(h, m, s, showSeconds);
    if hasDays {
      assert segs == [Segment(d, Day)] + hms;
      assert segs[1..] == hms;
    } else {
      assert segs == hms;
    }
  }

  lemma ClockTail(h: nat, m: nat, s: nat, showSeconds: bool)
    ensures var hms := [Segment(h, Hour), Segment(m, Minute)] + (if showSeconds then [Segment(s, Second)] else []);
      && Total(hms) == h * MillisPerHour + m * MillisPerMinute + (if showSeconds then s * MillisPerSecond else 0)
      && Units(hms) == [Hour, Minute] + (if showSeconds then [Second] else [])
  {
    var tail := if showSeconds then [Segment(s, Second)] else [];
    var hms := [Segment(h, Hour), Segment(m, Minute)] + tail;
    assert Total(tail) == if showSeconds then s * MillisPerSecond else 0;
    assert Units(tail) == if showSeconds then [Second] else [];
    assert hms[1..] == [Segment(m, Minute)] + tail;
    assert hms[1..][1..] == tail;
  }

  /** Whole hours, the minute of the hour and (when shown) the second of the minute fall short of `ms` by less than the last unit. */
  lemma ClockBounds(ms: nat, showSeconds: bool)
    requires ms / MillisPerMinute == (ms / MillisPerSecond) / 60
    requires ms / MillisPerHour == (ms / MillisPerMinute) / 60
    requires ms / MillisPerHour == (ms / MillisPerDay) * 24 + (ms / MillisPerHour) % 24
    ensures var below := (ms / MillisPerHour) * MillisPerHour + ((ms / MillisPerMinute) % 60) * MillisPerMinute
        + (if showSeconds then ((ms / MillisPerSecond) % 60) * MillisPerSecond else 0);
      below <= ms < below + (if showSeconds then MillisPerSecond else MillisPerMinute)
  {
    var sec := ms / MillisPerSecond;
    var min := ms / MillisPerMinute;
    var hr := ms / MillisPerHour;
    assert min == hr * 60 + min % 60;
    assert min * MillisPerMinute == hr * MillisPerHour + (min % 60) * MillisPerMinute;
    assert min * MillisPerMinute <= ms < min * MillisPerMinute + MillisPerMinute;
    if showSeconds {
      assert sec == min * 60 + sec % 60;
      assert sec * MillisPerSecond == min * MillisPerMinute + (sec % 60) * MillisPerSecond;
      assert sec * MillisPerSecond <= ms < sec * MillisPerSecond + MillisPerSecond;
    }
  }

  // ---------------------------------------------------------------------
  // Rendered text as a list of "<count> <word>" parts
  // ---------------------------------------------------------------------

  datatype Part = Part(count: nat, word: string)

  function Render(p: Part): string
  {
    NatToString(p.count) + " " + p.word
  }

  /** ", <part>" for each part. */
  function Tail(ps: seq<Part>): string
    decreases |ps|
  {
    if ps == [] then "" else ", " + Render(ps[0]) + Tail(ps[1..])
  }

  /** The parts joined by ", ". */
  function JoinParts(ps: seq<Part>): string
  {
    if ps == [] then "" else Render(ps[0]) + Tail(ps[1..])
  }

  /**
   * The part for a segment once the units in `done` have been singularised:
   * a count of exactly 1 of such a unit takes the singular word.
   */
  function StagedPart(seg: Segment, w: ResourceWords, done: set<Unit>): Part
  {
    Part(seg.count, if seg.count == 1 && seg.unit in done then Singular(w, seg.unit) else Plural(w, seg.unit))
  }

  function Staged(segs: seq<Segment>, w: ResourceWords, done: set<Unit>): seq<Part>
    decreases |segs|
  {
    if segs == [] then [] else [StagedPart(segs[0], w, done)] + Staged(segs[1..], w, done)
  }

  /** Every segment with its plural word, as DurationFormatUtils renders them. */
  function PluralParts(segs: seq<Segment>, w: ResourceWords): seq<Part>
  {
    Staged(segs, w, {})
  }

  /** Every segment with the word its count calls for: singular for 1, plural otherwise. */
  function WordedParts(segs: seq<Segment>, w: ResourceWords): seq<Part>
  {
    Staged(segs, w, {Day, Hour, Minute, Second})
  }

  lemma JoinCons(p: Part, ps: seq<Part>)
    ensures JoinParts([p] + ps) == Render(p) + Tail(ps)
    ensures Tail([p] + ps) == ", " + Render(p) + Tail(ps)
  {
    assert ([p] + ps)[1..] == ps;
  }

  lemma StagedCons(seg: Segment, segs: seq<Segment>, w: ResourceWords, done: set<Unit>)
    ensures Staged([seg] + segs, w, done) == [StagedPart(seg, w, done)] + Staged(segs, w, done)
  {
    assert ([seg] + segs)[1..] == segs;
  }

  /** A field followed by " <word>, " renders as that part and a separating comma. */
  lemma ChunkWithComma(u: Unit, word: string, rest: seq<Token>, f: Fields)
    ensures RenderPattern([Field(u), Literal(" " + word + ", ")] + rest, f)
         == Render(Part(FieldValue(f, u), word)) + ", " + RenderPattern(rest, f)
  {
    var toks := [Field(u), Literal(" " + word + ", ")] + rest;
    assert toks[1..] == [Literal(" " + word + ", ")] + rest;
    assert toks[1..][1..] == rest;
  }

  /** A field followed by " <word>" ends the text with that part. */
  lemma ChunkLast(u: Unit, word: string, f: Fields)
    ensures RenderPattern([Field(u), Literal(" " + word)], f) == Render(Part(FieldValue(f, u), word))
  {
    var toks := [Field(u), Literal(" " + word)];
    assert toks[1..] == [Literal(" " + word)];
    assert toks[1..][1..] == [];
    assert RenderPattern(toks[1..], f) == " " + word + "";
    var n := NatToString(FieldValue(f, u));
    assert n + (" " + word + "") == n + " " + word;
  }

  lemma JoinCommaCons(p: Part, ps: seq<Part>)
    requires ps != []
    ensures JoinParts([p] + ps) == Render(p) + ", " + JoinParts(ps)
  {
    JoinCons(p, ps);
    Assoc(", ", Render(ps[0]), Tail(ps[1..]));
    Assoc(Render(p), ", ", Render(ps[0]) + Tail(ps[1..]));
  }

  /** The running-remainder split of the source pattern reads the clock. */
  lemma SplitReadsClock(ms: nat, showSeconds: bool, w: ResourceWords)
    ensures SplitDuration(ms, DurationPattern(ms, showSeconds, w))
         == Fields(if ms >= MillisPerDay then ms / MillisPerDay else 0,
                   (ms / MillisPerHour) % 24,
                   (ms / MillisPerMinute) % 60,
                   if showSeconds then (ms / MillisPerSecond) % 60 else 0)
  {
    var pattern := DurationPattern(ms, showSeconds, w);
    ClockReading(ms, showSeconds);
    assert Field(Hour) in pattern && Field(Minute) in pattern;
    assert Field(Day) in pattern <==> ms >= MillisPerDay;
    assert Field(Second) in pattern <==> showSeconds;
  }

  /** Minutes, and seconds when shown: the end of the pattern and of the phrase. */
  lemma MinuteChunk(f: Fields, w: ResourceWords, showSeconds: bool)
    ensures RenderPattern(MinuteTokens(w, showSeconds), f) == JoinParts(PluralParts(MinuteSegments(f, showSeconds), w))
  {
    var pM := Part(f.minutes, w.minutes);
    if showSeconds {
      var pS := Part(f.seconds, w.seconds);
      ChunkLast(Second, w.seconds, f);
      ChunkWithComma(Minute, w.minutes, [Field(Second), Literal(" " + w.seconds)], f);
      StagedCons(Segment(f.seconds, Second), [], w, {});
      StagedCons(Segment(f.minutes, Minute), [Segment(f.seconds, Second)], w, {});
      JoinCommaCons(pM, [pS]);
      assert JoinParts([pS]) == Render(pS);
    } else {
      ChunkLast(Minute, w.minutes, f);
      StagedCons(Segment(f.minutes, Minute), [], w, {});
      assert JoinParts([pM]) == Render(pM);
    }
  }

  function MinuteTokens(w: ResourceWords, showSeconds: bool): seq<Token>
  {
    if showSeconds
    then [Field(Minute), Literal(" " + w.minutes + ", "), Field(Second), Literal(" " + w.seconds)]
    else [Field(Minute), Literal(" " + w.minutes)]
  }

  function MinuteSegments(f: Fields, showSeconds: bool): seq<Segment>
  {
    [Segment(f.minutes, Minute)] + (if showSeconds then [Segment(f.seconds, Second)] else [])
  }

  /** A field with " <word>, " in front of a rendered phrase adds one part to it. */
  lemma PrependChunk(u: Unit, f: Fields, w: ResourceWords, toks: seq<Token>, segs: seq<Segment>)
    requires segs != []
    requires RenderPattern(toks, f) == JoinParts(PluralParts(segs, w))
    ensures RenderPattern([Field(u), Literal(" " + Plural(w, u) + ", ")] + toks, f)
         == JoinParts(PluralParts([Segment(FieldValue(f, u), u)] + segs, w))
  {
    ChunkWithComma(u, Plural(w, u), toks, f);
    StagedCons(Segment(FieldValue(f, u), u), segs, w, {});
    JoinCommaCons(Part(FieldValue(f, u), Plural(w, u)), PluralParts(segs, w));
  }

  lemma SegmentsFromFields(ms: nat, showSeconds: bool, w: ResourceWords)
    ensures var f := SplitDuration(ms, DurationPattern(ms, showSeconds, w));
      DurationSegments(ms, showSeconds)
        == (if ms >= MillisPerDay then [Segment(f.days, Day)] else []) + ([Segment(f.hours, Hour)] + MinuteSegments(f, showSeconds))
  {
    SplitReadsClock(ms, showSeconds, w);
  }

  lemma PatternShape(ms: nat, showSeconds: bool, w: ResourceWords)
    ensures DurationPattern(ms, showSeconds, w)
         == (if ms >= MillisPerDay then [Field(Day), Literal(" " + w.days + ", ")] else [])
            + ([Field(Hour), Literal(" " + w.hours + ", ")] + MinuteTokens(w, showSeconds))
  {
  }

  /** The rendered pattern is the plural parts of DurationSegments joined by ", ". */
  lemma RenderedPattern(ms: nat, showSeconds: bool, w: ResourceWords)
    ensures FormatDuration(ms, DurationPattern(ms, showSeconds, w)) == JoinParts(PluralParts(DurationSegments(ms, showSeconds), w))
  {
    var pattern := DurationPattern(ms, showSeconds, w);
    var f := SplitDuration(ms, pattern);
    MinuteChunk(f, w, showSeconds);
    var hourToks := [Field(Hour), Literal(" " + w.hours + ", ")] + MinuteTokens(w, showSeconds);
    var hourSegs := [Segment(f.hours, Hour)] + MinuteSegments(f, showSeconds);
    PrependChunk(Hour, f, w, MinuteTokens(w, showSeconds), MinuteSegments(f, showSeconds));
    SegmentsFromFields(ms, showSeconds, w);
    PatternShape(ms, showSeconds, w);
    if ms >= MillisPerDay {
      PrependChunk(Day, f, w, hourToks, hourSegs);
    } else {
      assert [] + hourToks == hourToks;
      assert [] + hourSegs == hourSegs;
    }
  }

  // ---------------------------------------------------------------------
  // The singularisation passes on joined parts
  // ---------------------------------------------------------------------

  /** No digit one and no comma: the characters the passes key on. */
  predicate Plain(x: string)
  {
    forall i :: 0 <= i < |x| ==> x[i] != '1' && x[i] != ','
  }

  /** A word a pass for `key` can meet: plain, and `key` is a prefix of it only when it is `key`. */
  predicate WordsReady(ps: seq<Part>, key: string)
  {
    forall q :: q in ps ==> Plain(q.word) && (IsPrefix(key, q.word) ==> q.word == key)
  }

  /**
   * Resource words the regex passes treat as intended: plain, not blank at
   * the end, and no plural word is a prefix of any other word (so the plural
   * of one unit never matches the word of another, nor a singular).
   */
  predicate Hygienic(w: ResourceWords)
  {
    PlainWords(w) && VisibleEnds(w) && PluralsStandApart(w)
  }

  predicate PlainWords(w: ResourceWords)
  {
    forall u: Unit :: Plain(Plural(w, u)) && Plain(Singular(w, u))
  }

  predicate VisibleEnds(w: ResourceWords)
  {
    && (forall u: Unit :: |Plural(w, u)| > 0 && Plural(w, u)[|Plural(w, u)| - 1] > ' ')
    && (forall u: Unit :: |Singular(w, u)| > 0 && Singular(w, u)[|Singular(w, u)| - 1] > ' ')
  }

  predicate PluralsStandApart(w: ResourceWords)
  {
    && (forall u: Unit, v: Unit :: !IsPrefix(Plural(w, u), Singular(w, v)))
    && (forall u: Unit, v: Unit :: u != v ==> !IsPrefix(Plural(w, u), Plural(w, v)))
  }

  function PassPart(p: Part, plural: string, singular: string): Part
  {
    if p.count == 1 && p.word == plural then Part(1, singular) else p
  }

  function PassParts(ps: seq<Part>, plural: string, singular: string): seq<Part>
    decreases |ps|
  {
    if ps == [] then [] else [PassPart(ps[0], plural, singular)] + PassParts(ps[1..], plural, singular)
  }

  /** A plain key that starts `word` followed by more parts lies within `word`. */
  lemma WordBeforeTail(word: string, key: string, rest: seq<Part>)
    requires Plain(key)
    ensures IsPrefix(key, word + Tail(rest)) ==> IsPrefix(key, word)
  {
    var t := Tail(rest);
    if |key| > |word| && |word| + |t| >= |key| {
      assert rest != [];
      assert t[0] == ',';
      assert (word + t)[|word|] == ',';
      assert key[|word|] != ',';
    }
    if |key| <= |word| {
      assert (word + t)[..|key|] == word[..|key|];
    }
  }

  lemma SubParts(ps: seq<Part>, key: string)
    requires ps != [] && WordsReady(ps, key)
    ensures WordsReady(ps[1..], key)
    ensures Plain(ps[0].word) && (IsPrefix(key, ps[0].word) ==> ps[0].word == key)
  {
    assert ps[0] in ps;
    forall q | q in ps[1..] ensures q in ps { }
  }

  lemma {:induction false} PassOnTail(ps: seq<Part>, plural: string, singular: string, after: bool)
    requires |plural| > 0 && Plain(plural)
    requires WordsReady(ps, plural)
    ensures ReplaceAtBoundary(Tail(ps), "1 " + plural, "1 " + singular, after) == Tail(PassParts(ps, plural, singular))
    decreases |ps|, 2
  {
    if ps != [] {
      SubParts(ps, plural);
      var rest := Render(ps[0]) + Tail(ps[1..]);
      TailRegroup(ps);
      assert forall i :: 0 <= i < |", "| ==> ", "[i] != ("1 " + plural)[0];
      BoundarySkips(", ", rest, "1 " + plural, "1 " + singular, after);
      PassOnJoin(ps[0], ps[1..], plural, singular);
      PassPartsTail(ps, plural, singular);
    }
  }

  lemma TailRegroup(ps: seq<Part>)
    requires ps != []
    ensures Tail(ps) == ", " + (Render(ps[0]) + Tail(ps[1..]))
  {
  }

  lemma PassPartsTail(ps: seq<Part>, plural: string, singular: string)
    requires ps != []
    ensures Tail(PassParts(ps, plural, singular))
         == ", " + (Render(PassPart(ps[0], plural, singular)) + Tail(PassParts(ps[1..], plural, singular)))
  {
    var qs := PassParts(ps, plural, singular);
    assert qs[0] == PassPart(ps[0], plural, singular);
    assert qs[1..] == PassParts(ps[1..], plural, singular);
    TailRegroup(qs);
  }

  lemma {:induction false} PassOnJoin(p: Part, rest: seq<Part>, plural: string, singular: string)
    requires |plural| > 0 && Plain(plural)
    requires Plain(p.word) && (IsPrefix(plural, p.word) ==> p.word == plural)
    requires WordsReady(rest, plural)
    ensures ReplaceAtBoundary(Render(p) + Tail(rest), "1 " + plural, "1 " + singular, false)
         == Render(PassPart(p, plural, singular)) + Tail(PassParts(rest, plural, singular))
    decreases |rest| + 1, 1
  {
    HeadMatches(p, rest, plural);
    if p.count == 1 && p.word == plural {
      PassOnMatch(p, rest, plural, singular);
    } else {
      PassOnMiss(p, rest, plural, singular);
    }
  }

  lemma {:induction false} PassOnMatch(p: Part, rest: seq<Part>, plural: string, singular: string)
    requires |plural| > 0 && Plain(plural)
    requires p.count == 1 && p.word == plural
    requires WordsReady(rest, plural)
    ensures ReplaceAtBoundary(Render(p) + Tail(rest), "1 " + plural, "1 " + singular, false)
         == Render(Part(1, singular)) + Tail(PassParts(rest, plural, singular))
    decreases |rest| + 1, 0
  {
    var pat := "1 " + plural;
    var rep := "1 " + singular;
    var tail := " " + p.word + Tail(rest);
    assert Render(p) + Tail(rest) == pat + Tail(rest);
    assert IsPrefix(pat, pat + Tail(rest));
    assert (pat + Tail(rest))[|pat|..] == Tail(rest);
    PassOnTail(rest, plural, singular, IsWordChar(pat[|pat| - 1]));
    assert Render(Part(1, singular)) == rep;
  }

  lemma {:induction false} PassOnMiss(p: Part, rest: seq<Part>, plural: string, singular: string)
    requires |plural| > 0 && Plain(plural)
    requires Plain(p.word)
    requires !(NatToString(p.count) == ("1 " + plural)[..1] && IsPrefix(("1 " + plural)[1..], " " + p.word + Tail(rest)))
    requires WordsReady(rest, plural)
    ensures ReplaceAtBoundary(Render(p) + Tail(rest), "1 " + plural, "1 " + singular, false)
         == Render(p) + Tail(PassParts(rest, plural, singular))
    decreases |rest| + 1, 0
  {
    var pat := "1 " + plural;
    var rep := "1 " + singular;
    var d := NatToString(p.count);
    var sw := " " + p.word;
    var tail := sw + Tail(rest);
    assert Render(p) + Tail(rest) == d + tail;
    BoundaryAfterNumeral(d, tail, pat, rep, false);
    var r1 := ReplaceAtBoundary(tail, pat, rep, IsWordChar(d[|d| - 1]));
    assert ReplaceAtBoundary(d + tail, pat, rep, false) == d + r1;
    assert pat[0] == '1';
    assert forall i :: 0 <= i < |sw| ==> sw[i] != pat[0];
    BoundarySkips(sw, Tail(rest), pat, rep, IsWordChar(d[|d| - 1]));
    PassOnTail(rest, plural, singular, IsWordChar(sw[|sw| - 1]));
    var r2 := Tail(PassParts(rest, plural, singular));
    assert r1 == sw + r2;
    Assoc(d, " " + p.word, r2);
    Assoc(d, " ", p.word);
  }

  /** The pass fires on the first part exactly when it counts 1 of `plural`. */
  lemma HeadMatches(p: Part, rest: seq<Part>, plural: string)
    requires Plain(plural)
    requires Plain(p.word) && (IsPrefix(plural, p.word) ==> p.word == plural)
    ensures var pat := "1 " + plural;
      (NatToString(p.count) == pat[..1] && IsPrefix(pat[1..], " " + p.word + Tail(rest)))
      <==> (p.count == 1 && p.word == plural)
  {
    var pat := "1 " + plural;
    assert pat[..1] == "1" && pat[1..] == " " + plural;
    NumeralIsOne(p.count);
    WordAtHead(p.word, rest, plural);
  }

  lemma NumeralIsOne(count: nat)
    ensures NatToString(count) == "1" <==> count == 1
  {
    assert NatToString(1) == "1";
    NatToStringInjective(count, 1);
  }

  /** After the numeral's space, " <plural>" starts the text exactly when the part's word is that plural. */
  lemma WordAtHead(word: string, rest: seq<Part>, plural: string)
    requires Plain(plural)
    requires IsPrefix(plural, word) ==> word == plural
    ensures IsPrefix(" " + plural, " " + word + Tail(rest)) <==> word == plural
  {
    var t := word + Tail(rest);
    assert " " + word + Tail(rest) == " " + t;
    PrefixSpace(plural, t);
    WordBeforeTail(word, plural, rest);
    if word == plural {
      assert t[..|plural|] == plural;
    }
  }

  lemma PrefixSpace(x: string, y: string)
    ensures IsPrefix(" " + x, " " + y) <==> IsPrefix(x, y)
  {
    PrefixCommon(" ", x, y);
  }

  /** A common start can be dropped from both sides of IsPrefix. */
  lemma PrefixCommon(a: string, x: string, y: string)
    ensures IsPrefix(a + x, a + y) <==> IsPrefix(x, y)
  {
    if IsPrefix(x, y) {
      assert (a + y)[..|a| + |x|] == a + y[..|x|];
    }
    if IsPrefix(a + x, a + y) {
      assert y[..|x|] == (a + y)[|a|..|a| + |x|];
    }
  }

  /** One pass turns "1 <plural>" into "1 <singular>" in exactly the parts counting 1 of `plural`. */
  lemma SingularizePassOnParts(ps: seq<Part>, plural: string, singular: string)
    requires |plural| > 0 && Plain(plural)
    requires WordsReady(ps, plural)
    ensures SingularizePass(JoinParts(ps), plural, singular) == JoinParts(PassParts(ps, plural, singular))
  {
    if ps != [] {
      SubParts(ps, plural);
      PassOnJoin(ps[0], ps[1..], plural, singular);
      assert PassParts(ps, plural, singular)[1..] == PassParts(ps[1..], plural, singular);
    }
  }

  /** Under hygienic words a part of one unit never takes another unit's pass. */
  lemma StagedPartPass(seg: Segment, w: ResourceWords, done: set<Unit>, u: Unit)
    requires PluralsStandApart(w)
    ensures PassPart(StagedPart(seg, w, done), Plural(w, u), Singular(w, u)) == StagedPart(seg, w, done + {u})
  {
    assert !IsPrefix(Plural(w, u), Singular(w, seg.unit));
    assert seg.unit != u ==> !IsPrefix(Plural(w, u), Plural(w, seg.unit));
  }

  lemma {:induction false} StagedPass(segs: seq<Segment>, w: ResourceWords, done: set<Unit>, u: Unit)
    requires Hygienic(w)
    ensures WordsReady(Staged(segs, w, done), Plural(w, u))
    ensures PassParts(Staged(segs, w, done), Plural(w, u), Singular(w, u)) == Staged(segs, w, done + {u})
    decreases |segs|
  {
    if segs != [] {
      StagedPass(segs[1..], w, done, u);
      StagedPartPass(segs[0], w, done, u);
      var ps := Staged(segs, w, done);
      var q := ps[0];
      assert q == StagedPart(segs[0], w, done);
      assert ps[1..] == Staged(segs[1..], w, done);
      assert Plain(q.word) by {
        assert Plain(Plural(w, segs[0].unit)) && Plain(Singular(w, segs[0].unit));
      }
      assert IsPrefix(Plural(w, u), q.word) ==> q.word == Plural(w, u) by {
        assert !IsPrefix(Plural(w, u), Singular(w, segs[0].unit));
        assert segs[0].unit != u ==> !IsPrefix(Plural(w, u), Plural(w, segs[0].unit));
      }
      forall r | r in ps
        ensures Plain(r.word) && (IsPrefix(Plural(w, u), r.word) ==> r.word == Plural(w, u))
      {
        if r != q {
          assert r in ps[1..];
        }
      }
    }
  }

  /** The pass for one unit: "1 <plural>" at a word start becomes "1 <singular>". */
  function UnitPass(s: string, w: ResourceWords, u: Unit): string
  {
    SingularizePass(s, Plural(w, u), Singular(w, u))
  }

  lemma SingularizeByUnits(s: string, w: ResourceWords)
    ensures Singularize(s, w) == UnitPass(UnitPass(UnitPass(UnitPass(s, w, Second), w, Minute), w, Hour), w, Day)
  {
  }

  lemma SingularizeStage(segs: seq<Segment>, w: ResourceWords, done: set<Unit>, u: Unit, after: set<Unit>)
    requires Hygienic(w)
    requires after == done + {u}
    ensures UnitPass(JoinParts(Staged(segs, w, done)), w, u) == JoinParts(Staged(segs, w, after))
  {
    StagedPass(segs, w, done, u);
    SingularizePassOnParts(Staged(segs, w, done), Plural(w, u), Singular(w, u));
  }

  /**
   * The four passes of formatDurationAsWords give every unit counting
   * exactly 1 its singular word, and touch nothing else.
   */
  lemma SingularizeSegments(segs: seq<Segment>, w: ResourceWords)
    requires Hygienic(w)
    ensures Singularize(JoinParts(PluralParts(segs, w)), w) == JoinParts(WordedParts(segs, w))
  {
    var j0 := JoinParts(Staged(segs, w, {}));
    SingularizeByUnits(j0, w);
    SecondsThenMinutes(segs, w);
    HoursThenDays(segs, w);
  }

  lemma SecondsThenMinutes(segs: seq<Segment>, w: ResourceWords)
    requires Hygienic(w)
    ensures UnitPass(UnitPass(JoinParts(Staged(segs, w, {})), w, Second), w, Minute)
         == JoinParts(Staged(segs, w, {Second, Minute}))
  {
    SingularizeStage(segs, w, {}, Second, {Second});
    SingularizeStage(segs, w, {Second}, Minute, {Second, Minute});
  }

  lemma HoursThenDays(segs: seq<Segment>, w: ResourceWords)
    requires Hygienic(w)
    ensures UnitPass(UnitPass(JoinParts(Staged(segs, w, {Second, Minute})), w, Hour), w, Day)
         == JoinParts(Staged(segs, w, {Day, Hour, Minute, Second}))
  {
    SingularizeStage(segs, w, {Second, Minute}, Hour, {Second, Minute, Hour});
    SingularizeStage(segs, w, {Second, Minute, Hour}, Day, {Day, Hour, Minute, Second});
  }

  // ---------------------------------------------------------------------
  // Stripping zero values on joined parts
  // ---------------------------------------------------------------------

  /** The parts without those reading "0 <word>". */
  function DropZero(ps: seq<Part>, word: string): (r: seq<Part>)
    ensures forall q :: q in r ==> q in ps
    decreases |ps|
  {
    if ps == [] then []
    else if ps[0] == Part(0, word) then DropZero(ps[1..], word)
    else [ps[0]] + DropZero(ps[1..], word)
  }

  /** `String.replace(", 0 <word>", "")` on parts: the first part always stays. */
  function DropInterior(ps: seq<Part>, word: string): (r: seq<Part>)
    ensures forall q :: q in r ==> q in ps
  {
    if ps == [] then [] else [ps[0]] + DropZero(ps[1..], word)
  }

  /** `replacePattern("^0 <word>, ", "")` on parts: a leading zero part is dropped when more follow. */
  function DropLeading(ps: seq<Part>, word: string): (r: seq<Part>)
    ensures forall q :: q in r ==> q in ps
  {
    if |ps| >= 2 && ps[0] == Part(0, word) then ps[1..] else ps
  }

  /** The seven zero-stripping passes, on parts. */
  function StripParts(ps: seq<Part>): seq<Part>
  {
    var p1 := DropInterior(ps, "seconds");
    var p2 := DropInterior(p1, "minutes");
    var p3 := DropInterior(p2, "hours");
    var p4 := DropLeading(p3, "days");
    var p5 := DropLeading(p4, "hours");
    var p6 := DropLeading(p5, "minutes");
    DropLeading(p6, "seconds")
  }

  lemma RenderHasNoComma(p: Part)
    requires Plain(p.word)
    ensures forall i :: 0 <= i < |Render(p)| ==> Render(p)[i] != ','
  {
    var n := NatToString(p.count);
    assert Render(p) == n + " " + p.word;
    forall i | 0 <= i < |Render(p)| ensures Render(p)[i] != ',' {
      if i < |n| {
        assert IsDigit(n[i]);
      } else if i > |n| {
        assert Render(p)[i] == p.word[i - |n| - 1];
      }
    }
  }

  lemma Bracket(a: string, n: string, word: string, t: string)
    ensures a + (n + " " + word) + t == a + (n + (" " + (word + t)))
  {
  }

  /** A numeral followed by " <text>" starts with "0 <key>" exactly for the count 0 and a text starting with `key`. */
  lemma ZeroNumeral(c: nat, key: string, u: string)
    ensures IsPrefix("0" + (" " + key), NatToString(c) + (" " + u)) <==> c == 0 && IsPrefix(key, u)
  {
    var n := NatToString(c);
    if c == 0 {
      assert n == "0";
      PrefixCommon("0", " " + key, " " + u);
      PrefixSpace(key, u);
    } else {
      assert (n + (" " + u))[0] == n[0] != '0';
    }
  }

  /** Within a joined text a plain key starts at a word exactly when it is that word. */
  lemma KeyAtWord(word: string, key: string, rest: seq<Part>)
    requires Plain(key)
    requires IsPrefix(key, word) ==> word == key
    ensures IsPrefix(key, word + Tail(rest)) <==> word == key
  {
    WordBeforeTail(word, key, rest);
    if word == key {
      assert (word + Tail(rest))[..|key|] == key;
    }
  }

  /** ", 0 <word>" starts a separator exactly when the part after it reads "0 <word>". */
  lemma ZeroAfterComma(p: Part, rest: seq<Part>, word: string)
    requires Plain(word)
    requires IsPrefix(word, p.word) ==> p.word == word
    ensures IsPrefix(", 0 " + word, ", " + Render(p) + Tail(rest)) <==> p == Part(0, word)
  {
    var n := NatToString(p.count);
    var u := p.word + Tail(rest);
    Bracket(", ", n, p.word, Tail(rest));
    assert ", 0 " + word == ", " + ("0" + (" " + word));
    PrefixCommon(", ", "0" + (" " + word), n + (" " + u));
    ZeroNumeral(p.count, word, u);
    KeyAtWord(p.word, word, rest);
  }

  lemma {:induction false} StripOnTail(ps: seq<Part>, word: string)
    requires Plain(word)
    requires WordsReady(ps, word)
    ensures ReplaceAll(Tail(ps), ", 0 " + word, "") == Tail(DropZero(ps, word))
    decreases |ps|
  {
    if ps != [] {
      SubParts(ps, word);
      ZeroAfterComma(ps[0], ps[1..], word);
      StripOnTail(ps[1..], word);
      if ps[0] == Part(0, word) {
        StripZeroStep(ps[0], ps[1..], word);
      } else {
        KeepStep(ps[0], ps[1..], word);
        JoinCons(ps[0], DropZero(ps[1..], word));
      }
    }
  }

  lemma StripZeroStep(p: Part, rest: seq<Part>, word: string)
    requires p == Part(0, word)
    ensures ReplaceAll(", " + Render(p) + Tail(rest), ", 0 " + word, "") == ReplaceAll(Tail(rest), ", 0 " + word, "")
  {
    var target := ", 0 " + word;
    assert Render(p) == "0 " + word;
    assert ", " + Render(p) + Tail(rest) == target + Tail(rest);
    assert (target + Tail(rest))[..|target|] == target;
    assert (target + Tail(rest))[|target|..] == Tail(rest);
  }

  lemma KeepStep(p: Part, rest: seq<Part>, word: string)
    requires Plain(p.word)
    requires !IsPrefix(", 0 " + word, ", " + Render(p) + Tail(rest))
    ensures ReplaceAll(", " + Render(p) + Tail(rest), ", 0 " + word, "")
         == ", " + Render(p) + ReplaceAll(Tail(rest), ", 0 " + word, "")
  {
    var target := ", 0 " + word;
    var r := Render(p);
    var x := " " + r;
    var s := ", " + r + Tail(rest);
    RenderHasNoComma(p);
    SpaceKeepsNoComma(r);
    assert target[0] == ',';
    calc {
      ReplaceAll(s, target, "");
      == { ReplaceAllStep(s, target, ""); }
      [s[0]] + ReplaceAll(s[1..], target, "");
      == { assert s[0] == ',' && s[1..] == x + Tail(rest); ReplaceAllSkips(x, Tail(rest), target, ""); }
      [','] + (x + ReplaceAll(Tail(rest), target, ""));
      == { assert [','] + " " == ", "; }
      ", " + r + ReplaceAll(Tail(rest), target, "");
    }
  }

  lemma SpaceKeepsNoComma(r: string)
    requires forall i :: 0 <= i < |r| ==> r[i] != ','
    ensures forall i :: 0 <= i < |" " + r| ==> (" " + r)[i] != ','
  {
    var x := " " + r;
    forall i | 0 <= i < |x| ensures x[i] != ',' {
      if i > 0 {
        assert x[i] == r[i - 1];
      }
    }
  }

  lemma StripInteriorOnJoin(ps: seq<Part>, word: string)
    requires Plain(word)
    requires WordsReady(ps, word)
    ensures ReplaceAll(JoinParts(ps), ", 0 " + word, "") == JoinParts(DropInterior(ps, word))
  {
    if ps != [] {
      SubParts(ps, word);
      RenderHasNoComma(ps[0]);
      ReplaceAllSkips(Render(ps[0]), Tail(ps[1..]), ", 0 " + word, "");
      StripOnTail(ps[1..], word);
      JoinCons(ps[0], DropZero(ps[1..], word));
    }
  }

  /** "0 <word>, " starts the text exactly when the first part reads "0 <word>" and more follow. */
  lemma ZeroLeading(ps: seq<Part>, word: string)
    requires Plain(word)
    requires WordsReady(ps, word)
    ensures IsPrefix("0 " + word + ", ", JoinParts(ps)) <==> |ps| >= 2 && ps[0] == Part(0, word)
  {
    if ps != [] {
      SubParts(ps, word);
      var p := ps[0];
      var n := NatToString(p.count);
      var t := Tail(ps[1..]);
      var u := p.word + t;
      var key := "0 " + word + ", ";
      assert JoinParts(ps) == n + (" " + u) by {
        Bracket("", n, p.word, t);
        assert JoinParts(ps) == "" + Render(p) + t;
      }
      assert key == "0" + (" " + (word + ", "));
      ZeroNumeral(p.count, word + ", ", u);
      WordThenComma(p, ps[1..], word);
      assert IsPrefix(key, JoinParts(ps)) <==> p.count == 0 && p.word == word && ps[1..] != [];
    }
  }

  /** "<word>, " starts a part's word and the rest exactly when that word is `word` and more parts follow. */
  lemma WordThenComma(p: Part, rest: seq<Part>, word: string)
    requires Plain(word)
    requires IsPrefix(word, p.word) ==> p.word == word
    ensures IsPrefix(word + ", ", p.word + Tail(rest)) <==> p.word == word && rest != []
  {
    KeyAtWord(p.word, word, rest);
    KeyThenComma(word, p.word, Tail(rest));
    CommaStartsTail(rest);
  }

  /** `key + ", "` starts `u + t` exactly when `u` is the key and `t` starts with the comma. */
  lemma KeyThenComma(key: string, u: string, t: string)
    requires IsPrefix(key, u + t) <==> u == key
    ensures IsPrefix(key + ", ", u + t) <==> u == key && IsPrefix(", ", t)
  {
    var s := u + t;
    if IsPrefix(key + ", ", s) {
      assert s[..|key|] == s[..|key| + 2][..|key|];
      assert IsPrefix(key, s);
    }
    if u == key {
      PrefixCommon(key, ", ", t);
    }
  }

  lemma CommaStartsTail(rest: seq<Part>)
    ensures IsPrefix(", ", Tail(rest)) <==> rest != []
  {
    if rest != [] {
      assert Tail(rest) == ", " + (Render(rest[0]) + Tail(rest[1..]));
    }
  }

  lemma StripLeadingOnJoin(ps: seq<Part>, word: string)
    requires Plain(word)
    requires WordsReady(ps, word)
    ensures StripPrefix(JoinParts(ps), "0 " + word + ", ") == JoinParts(DropLeading(ps, word))
  {
    ZeroLeading(ps, word);
    if |ps| >= 2 && ps[0] == Part(0, word) {
      var rest := ps[1..];
      JoinCommaCons(ps[0], rest);
      assert [ps[0]] + rest == ps;
      assert Render(ps[0]) == "0 " + word;
      assert JoinParts(ps) == "0 " + word + ", " + JoinParts(rest);
    }
  }

  /** The zero-stripping literals name these words, in English whatever the resource words are. */
  predicate StripReady(ps: seq<Part>)
  {
    && WordsReady(ps, "seconds") && WordsReady(ps, "minutes")
    && WordsReady(ps, "hours") && WordsReady(ps, "days")
  }

  lemma StripReadySub(ps: seq<Part>, qs: seq<Part>)
    requires StripReady(ps)
    requires forall q :: q in qs ==> q in ps
    ensures StripReady(qs)
  {
  }

  /** The seven passes of the zero-value branch act on the parts as StripParts does. */
  lemma StripZeroValuesOnParts(ps: seq<Part>)
    requires StripReady(ps)
    ensures StripZeroValues(JoinParts(ps)) == JoinParts(StripParts(ps))
  {
    var p3 := DropInterior(DropInterior(DropInterior(ps, "seconds"), "minutes"), "hours");
    InteriorPasses(ps);
    LeadingPasses(p3);
  }

  lemma InteriorPasses(ps: seq<Part>)
    requires StripReady(ps)
    ensures var p3 := DropInterior(DropInterior(DropInterior(ps, "seconds"), "minutes"), "hours");
      && StripReady(p3)
      && ReplaceAll(ReplaceAll(ReplaceAll(JoinParts(ps), ", 0 seconds", ""), ", 0 minutes", ""), ", 0 hours", "")
         == JoinParts(p3)
  {
    assert Plain("seconds") && Plain("minutes") && Plain("hours");
    assert ", 0 " + "seconds" == ", 0 seconds";
    assert ", 0 " + "minutes" == ", 0 minutes";
    assert ", 0 " + "hours" == ", 0 hours";
    var p1 := DropInterior(ps, "seconds");
    StripInteriorOnJoin(ps, "seconds");
    StripReadySub(ps, p1);
    var p2 := DropInterior(p1, "minutes");
    StripInteriorOnJoin(p1, "minutes");
    StripReadySub(p1, p2);
    var p3 := DropInterior(p2, "hours");
    StripInteriorOnJoin(p2, "hours");
    StripReadySub(p2, p3);
  }

  lemma LeadingPasses(ps: seq<Part>)
    requires StripReady(ps)
    ensures StripPrefix(StripPrefix(StripPrefix(StripPrefix(JoinParts(ps), "0 days, "), "0 hours, "), "0 minutes, "), "0 seconds, ")
         == JoinParts(DropLeading(DropLeading(DropLeading(DropLeading(ps, "days"), "hours"), "minutes"), "seconds"))
  {
    assert Plain("seconds") && Plain("minutes") && Plain("hours") && Plain("days");
    assert "0 " + "days" + ", " == "0 days, ";
    assert "0 " + "hours" + ", " == "0 hours, ";
    assert "0 " + "minutes" + ", " == "0 minutes, ";
    assert "0 " + "seconds" + ", " == "0 seconds, ";
    var p4 := DropLeading(ps, "days");
    StripLeadingOnJoin(ps, "days");
    StripReadySub(ps, p4);
    var p5 := DropLeading(p4, "hours");
    StripLeadingOnJoin(p4, "hours");
    StripReadySub(p4, p5);
    var p6 := DropLeading(p5, "minutes");
    StripLeadingOnJoin(p5, "minutes");
    StripReadySub(p5, p6);
    StripLeadingOnJoin(p6, "seconds");
  }

  // ---------------------------------------------------------------------
  // Stripping zero values on segments
  // ---------------------------------------------------------------------

  /** The unit words the zero-stripping literals are written in. */
  predicate EnglishPlurals(w: ResourceWords)
  {
    w.seconds == "seconds" && w.minutes == "minutes" && w.hours == "hours" && w.days == "days"
  }

  /** The segments without those counting zero. */
  function NonZero(segs: seq<Segment>): (r: seq<Segment>)
    ensures forall s :: s in r ==> s in segs && s.count > 0
    ensures forall s :: s in segs && s.count > 0 ==> s in r
    decreases |segs|
  {
    if segs == [] then []
    else if segs[0].count == 0 then NonZero(segs[1..])
    else [segs[0]] + NonZero(segs[1..])
  }

  function DropUnit(segs: seq<Segment>, u: Unit): (r: seq<Segment>)
    decreases |segs|
  {
    if segs == [] then []
    else if segs[0] == Segment(0, u) then DropUnit(segs[1..], u)
    else [segs[0]] + DropUnit(segs[1..], u)
  }

  function DropLeadingSegment(segs: seq<Segment>, u: Unit): seq<Segment>
  {
    if |segs| >= 2 && segs[0] == Segment(0, u) then segs[1..] else segs
  }

  /**
   * What is left on screen: every segment when zero values are shown;
   * otherwise zero segments after the first are hidden, and a zero first
   * segment is hidden too unless nothing else is left.
   */
  function VisibleSegments(segs: seq<Segment>, showZeroValues: bool): (r: seq<Segment>)
    ensures showZeroValues ==> r == segs
    ensures !showZeroValues && segs != [] ==> |r| > 0 && (|r| == 1 || forall s :: s in r ==> s.count > 0)
    ensures forall s :: s in r ==> s in segs
    ensures forall s :: s in segs && s.count > 0 ==> s in r
    ensures !showZeroValues && segs != [] ==> r == if NonZero(segs) == [] then [segs[0]] else NonZero(segs)
  {
    if showZeroValues || segs == [] then segs
    else
      var kept := [segs[0]] + NonZero(segs[1..]);
      if |kept| >= 2 && kept[0].count == 0 then kept[1..] else kept
  }

  /** Under hygienic words a part reads "0 <plural of u>" exactly when its segment is a zero u. */
  lemma ZeroPartOfSegment(seg: Segment, w: ResourceWords, done: set<Unit>, u: Unit)
    requires PluralsStandApart(w)
    ensures StagedPart(seg, w, done) == Part(0, Plural(w, u)) <==> seg == Segment(0, u)
  {
    if seg.count == 0 && seg.unit != u {
      assert !IsPrefix(Plural(w, u), Plural(w, seg.unit));
    }
  }

  lemma {:induction false} DropZeroStaged(segs: seq<Segment>, w: ResourceWords, done: set<Unit>, u: Unit)
    requires PluralsStandApart(w)
    ensures DropZero(Staged(segs, w, done), Plural(w, u)) == Staged(DropUnit(segs, u), w, done)
    decreases |segs|
  {
    if segs != [] {
      var ps := Staged(segs, w, done);
      assert ps[1..] == Staged(segs[1..], w, done);
      ZeroPartOfSegment(segs[0], w, done, u);
      DropZeroStaged(segs[1..], w, done, u);
      if segs[0] != Segment(0, u) {
        StagedCons(segs[0], DropUnit(segs[1..], u), w, done);
      }
    }
  }

  lemma DropInteriorStaged(segs: seq<Segment>, w: ResourceWords, done: set<Unit>, u: Unit)
    requires PluralsStandApart(w)
    requires segs != []
    ensures DropInterior(Staged(segs, w, done), Plural(w, u)) == Staged([segs[0]] + DropUnit(segs[1..], u), w, done)
  {
    var ps := Staged(segs, w, done);
    assert ps[1..] == Staged(segs[1..], w, done);
    DropZeroStaged(segs[1..], w, done, u);
    StagedCons(segs[0], DropUnit(segs[1..], u), w, done);
  }

  lemma DropLeadingStaged(segs: seq<Segment>, w: ResourceWords, done: set<Unit>, u: Unit)
    requires PluralsStandApart(w)
    ensures DropLeading(Staged(segs, w, done), Plural(w, u)) == Staged(DropLeadingSegment(segs, u), w, done)
  {
    if |segs| >= 2 {
      ZeroPartOfSegment(segs[0], w, done, u);
      assert Staged(segs, w, done)[1..] == Staged(segs[1..], w, done);
    }
  }

  /** Without days among them, dropping zero seconds, minutes and hours drops every zero. */
  lemma {:induction false} DropUnitsNonZero(segs: seq<Segment>)
    requires forall s :: s in segs ==> s.unit != Day
    ensures DropUnit(DropUnit(DropUnit(segs, Second), Minute), Hour) == NonZero(segs)
    decreases |segs|
  {
    if segs != [] {
      assert segs[0] in segs;
      forall s | s in segs[1..] ensures s.unit != Day {
        assert s in segs;
      }
      DropUnitsNonZero(segs[1..]);
      var s0 := segs[0];
      var d1 := DropUnit(segs[1..], Second);
      var d2 := DropUnit(d1, Minute);
      if s0.count != 0 {
        assert DropUnit(segs, Second) == [s0] + d1;
        assert ([s0] + d1)[1..] == d1;
        assert DropUnit([s0] + d1, Minute) == [s0] + d2;
        assert ([s0] + d2)[1..] == d2;
      } else if s0.unit == Minute {
        assert DropUnit(segs, Second) == [s0] + d1;
        assert ([s0] + d1)[1..] == d1;
      } else if s0.unit == Hour {
        assert DropUnit(segs, Second) == [s0] + d1;
        assert ([s0] + d1)[1..] == d1;
        assert DropUnit([s0] + d1, Minute) == [s0] + d2;
        assert ([s0] + d2)[1..] == d2;
      }
    }
  }

  /** Where the clock reading starts: whole days (at least one), or the hour. */
  predicate ClockShaped(segs: seq<Segment>)
  {
    && segs != []
    && (segs[0].unit == Hour || (segs[0].unit == Day && segs[0].count > 0))
    && forall i :: 1 <= i < |segs| ==> segs[i].unit != Day
  }

  lemma DurationSegmentsShaped(ms: nat, showSeconds: bool)
    ensures ClockShaped(DurationSegments(ms, showSeconds))
  {
  }

  lemma InteriorSegments(segs: seq<Segment>, w: ResourceWords)
    requires PluralsStandApart(w) && EnglishPlurals(w)
    requires ClockShaped(segs)
    ensures DropInterior(DropInterior(DropInterior(WordedParts(segs, w), "seconds"), "minutes"), "hours")
         == WordedParts([segs[0]] + NonZero(segs[1..]), w)
  {
    var all := {Day, Hour, Minute, Second};
    var s0 := segs[0];
    var d1 := DropUnit(segs[1..], Second);
    var d2 := DropUnit(d1, Minute);
    var d3 := DropUnit(d2, Hour);
    assert Plural(w, Second) == "seconds" && Plural(w, Minute) == "minutes" && Plural(w, Hour) == "hours";
    DropInteriorStaged(segs, w, all, Second);
    assert ([s0] + d1)[0] == s0 && ([s0] + d1)[1..] == d1;
    DropInteriorStaged([s0] + d1, w, all, Minute);
    assert ([s0] + d2)[0] == s0 && ([s0] + d2)[1..] == d2;
    DropInteriorStaged([s0] + d2, w, all, Hour);
    RestHasNoDays(segs);
    DropUnitsNonZero(segs[1..]);
  }

  lemma RestHasNoDays(segs: seq<Segment>)
    requires ClockShaped(segs)
    ensures forall s :: s in segs[1..] ==> s.unit != Day
  {
    forall s | s in segs[1..] ensures s.unit != Day {
      var i :| 0 <= i < |segs[1..]| && segs[1..][i] == s;
      assert segs[i + 1] == s;
    }
  }

  lemma LeadingSegments(segs: seq<Segment>, w: ResourceWords)
    requires PluralsStandApart(w) && EnglishPlurals(w)
    requires ClockShaped(segs)
    ensures var kept := [segs[0]] + NonZero(segs[1..]);
      DropLeading(DropLeading(DropLeading(DropLeading(WordedParts(kept, w), "days"), "hours"), "minutes"), "seconds")
      == WordedParts(VisibleSegments(segs, false), w)
  {
    var all := {Day, Hour, Minute, Second};
    var kept := [segs[0]] + NonZero(segs[1..]);
    assert Plural(w, Second) == "seconds" && Plural(w, Minute) == "minutes";
    assert Plural(w, Hour) == "hours" && Plural(w, Day) == "days";
    var k1 := DropLeadingSegment(kept, Day);
    var k2 := DropLeadingSegment(k1, Hour);
    var k3 := DropLeadingSegment(k2, Minute);
    var k4 := DropLeadingSegment(k3, Second);
    DropLeadingStaged(kept, w, all, Day);
    DropLeadingStaged(k1, w, all, Hour);
    DropLeadingStaged(k2, w, all, Minute);
    DropLeadingStaged(k3, w, all, Second);
    assert k1 == kept;
    if |kept| >= 2 && kept[0].count == 0 {
      assert kept[0].unit == Hour;
      assert k2 == NonZero(segs[1..]);
      assert k2[0] in NonZero(segs[1..]);
    }
    assert k4 == VisibleSegments(segs, false);
  }

  /** Under English plurals the zero-value branch hides exactly what VisibleSegments hides. */
  lemma StripSegments(segs: seq<Segment>, w: ResourceWords)
    requires Hygienic(w) && EnglishPlurals(w)
    requires ClockShaped(segs)
    ensures StripZeroValues(JoinParts(WordedParts(segs, w))) == JoinParts(WordedParts(VisibleSegments(segs, false), w))
  {
    var all := {Day, Hour, Minute, Second};
    assert Plural(w, Second) == "seconds" && Plural(w, Minute) == "minutes";
    assert Plural(w, Hour) == "hours" && Plural(w, Day) == "days";
    StagedPass(segs, w, all, Second);
    StagedPass(segs, w, all, Minute);
    StagedPass(segs, w, all, Hour);
    StagedPass(segs, w, all, Day);
    StripZeroValuesOnParts(WordedParts(segs, w));
    InteriorSegments(segs, w);
    LeadingSegments(segs, w);
  }

  // ---------------------------------------------------------------------
  // The phrase, and the pipeline proved equal to it
  // ---------------------------------------------------------------------

  /**
   * The intended phrase: the visible segments of the clock reading, each as
   * "<count> <word>" with the singular word for a count of 1, joined by ", ".
   */
  function Phrase(w: ResourceWords, durationMillis: int, showSeconds: bool, showZeroValues: bool): (r: string)
    ensures r == "" <==> durationMillis <= 0
  {
    if durationMillis <= 0 then ""
    else
      var ps := WordedParts(VisibleSegments(DurationSegments(durationMillis, showSeconds), showZeroValues), w);
      assert ps != [];
      JoinParts(ps)
  }

  /** In the phrase's parts a count of exactly 1 takes the singular word and every other count the plural. */
  lemma CountOneIsSingular(segs: seq<Segment>, w: ResourceWords)
    ensures |WordedParts(segs, w)| == |segs|
    ensures forall i :: 0 <= i < |segs| ==> WordedParts(segs, w)[i].count == segs[i].count
    ensures forall i :: 0 <= i < |segs| ==>
      WordedParts(segs, w)[i].word == if segs[i].count == 1 then Singular(w, segs[i].unit) else Plural(w, segs[i].unit)
  {
    var all := {Day, Hour, Minute, Second};
    StagedPointwise(segs, w, all);
    forall i | 0 <= i < |segs|
      ensures WordedParts(segs, w)[i].word == if segs[i].count == 1 then Singular(w, segs[i].unit) else Plural(w, segs[i].unit)
    {
      assert segs[i].unit in all by { EveryUnit(segs[i].unit); }
    }
  }

  lemma EveryUnit(u: Unit)
    ensures u in {Day, Hour, Minute, Second}
  {
  }

  /** Every word ends in a visible character. */
  predicate WordsEndVisible(ps: seq<Part>)
  {
    forall q :: q in ps ==> |q.word| > 0 && q.word[|q.word| - 1] > ' '
  }

  lemma RenderEnds(p: Part)
    requires |p.word| > 0 && p.word[|p.word| - 1] > ' '
    ensures |Render(p)| > 0 && Render(p)[0] > ' ' && Render(p)[|Render(p)| - 1] > ' '
  {
    var n := NatToString(p.count);
    assert Render(p)[0] == n[0];
    assert IsDigit(n[0]);
    assert Render(p)[|Render(p)| - 1] == p.word[|p.word| - 1];
  }

  lemma {:induction false} TailEnds(ps: seq<Part>)
    requires ps != [] && WordsEndVisible(ps)
    ensures |Tail(ps)| > 0 && Tail(ps)[|Tail(ps)| - 1] > ' '
    decreases |ps|
  {
    var rest := ps[1..];
    assert ps[0] in ps;
    RenderEnds(ps[0]);
    var t := Tail(rest);
    assert Tail(ps) == (", " + Render(ps[0])) + t;
    if rest != [] {
      forall q | q in rest ensures |q.word| > 0 && q.word[|q.word| - 1] > ' ' {
        assert q in ps;
      }
      TailEnds(rest);
    } else {
      assert t == "";
    }
  }

  /** A joined text of visible words is left alone by String.trim. */
  lemma JoinPartsTrimmed(ps: seq<Part>)
    requires ps != [] && WordsEndVisible(ps)
    ensures Trim(JoinParts(ps)) == JoinParts(ps)
  {
    var rest := ps[1..];
    assert ps[0] in ps;
    RenderEnds(ps[0]);
    if rest != [] {
      RestEndsVisible(ps);
      TailEnds(rest);
      VisibleConcat(Render(ps[0]), Tail(rest));
    } else {
      assert JoinParts(ps) == Render(ps[0]);
    }
  }

  lemma RestEndsVisible(ps: seq<Part>)
    requires ps != [] && WordsEndVisible(ps)
    ensures WordsEndVisible(ps[1..])
  {
    forall q | q in ps[1..] ensures |q.word| > 0 && q.word[|q.word| - 1] > ' ' {
      assert q in ps;
    }
  }

  /** Two texts each with a visible outer end join into one that String.trim leaves alone. */
  lemma VisibleConcat(a: string, b: string)
    requires |a| > 0 && a[0] > ' ' && |b| > 0 && b[|b| - 1] > ' '
    ensures Trim(a + b) == a + b
  {
    var j := a + b;
    assert j[0] == a[0] && j[|j| - 1] == b[|b| - 1];
  }

  lemma StagedWordsVisible(segs: seq<Segment>, w: ResourceWords, done: set<Unit>)
    requires VisibleEnds(w)
    ensures WordsEndVisible(Staged(segs, w, done))
  {
    var ps := Staged(segs, w, done);
    StagedPointwise(segs, w, done);
    forall q | q in ps ensures |q.word| > 0 && q.word[|q.word| - 1] > ' ' {
      var i :| 0 <= i < |ps| && ps[i] == q;
      StagedPartVisible(segs[i], w, done);
    }
  }

  lemma StagedPartVisible(seg: Segment, w: ResourceWords, done: set<Unit>)
    requires VisibleEnds(w)
    ensures var word := StagedPart(seg, w, done).word; |word| > 0 && word[|word| - 1] > ' '
  {
    var u := seg.unit;
    assert |Plural(w, u)| > 0 && Plural(w, u)[|Plural(w, u)| - 1] > ' ';
    assert |Singular(w, u)| > 0 && Singular(w, u)[|Singular(w, u)| - 1] > ' ';
  }

  /**
   * formatDurationAsWords says what the phrase says: for hygienic resource
   * words, and English plurals whenever zero values are hidden, the regex
   * pipeline of the source yields exactly Phrase.
   */
  lemma FormatDurationAsWordsIsPhrase(w: ResourceWords, durationMillis: int, showSeconds: bool, showZeroValues: bool)
    requires Hygienic(w)
    requires !showZeroValues ==> EnglishPlurals(w)
    ensures FormatDurationAsWords(w, durationMillis, showSeconds, showZeroValues) == Phrase(w, durationMillis, showSeconds, showZeroValues)
  {
    if durationMillis > 0 {
      var ms: nat := durationMillis;
      var segs := DurationSegments(ms, showSeconds);
      RenderedPattern(ms, showSeconds, w);
      SingularizeSegments(segs, w);
      var visible := VisibleSegments(segs, showZeroValues);
      if !showZeroValues {
        DurationSegmentsShaped(ms, showSeconds);
        StripSegments(segs, w);
      }
      StagedWordsVisible(visible, w, {Day, Hour, Minute, Second});
      JoinPartsTrimmed(WordedParts(visible, w));
    }
  }

  // ---------------------------------------------------------------------
  // The English bundle, and worked examples
  // ---------------------------------------------------------------------

  /** The one-argument overload is the phrase with zero values shown and no seconds. */
  lemma FormatDurationAsWordsDefaultIsPhrase(w: ResourceWords, durationMillis: int)
    requires Hygienic(w)
    ensures FormatDurationAsWordsDefault(w, durationMillis) == Phrase(w, durationMillis, false, true)
  {
    FormatDurationAsWordsIsPhrase(w, durationMillis, false, true);
  }

  lemma EnglishIsHygienic()
    ensures Hygienic(EnglishWords) && EnglishPlurals(EnglishWords)
  {
    EnglishPlain();
    EnglishVisibleEnds();
    EnglishStandsApart();
  }

  lemma EnglishPlain()
    ensures PlainWords(EnglishWords)
  {
    forall u: Unit ensures Plain(Plural(EnglishWords, u)) && Plain(Singular(EnglishWords, u)) {
      EnglishPlainUnit(u);
    }
  }

  lemma EnglishPlainUnit(u: Unit)
    ensures Plain(Plural(EnglishWords, u)) && Plain(Singular(EnglishWords, u))
  {
    EnglishSingulars();
    EnglishLiteralsPlain();
  }

  lemma EnglishLiteralsPlain()
    ensures Plain("days") && Plain("day") && Plain("hours") && Plain("hour")
    ensures Plain("minutes") && Plain("minute") && Plain("seconds") && Plain("second")
  {
  }

  lemma EnglishVisibleEnds()
    ensures VisibleEnds(EnglishWords)
  {
    EnglishWordList();
  }

  lemma EnglishStandsApart()
    ensures PluralsStandApart(EnglishWords)
  {
    var w := EnglishWords;
    EnglishWordList();
    forall u: Unit, v: Unit ensures !IsPrefix(Plural(w, u), Singular(w, v)) {
      EnglishNotPrefix(Plural(w, u), Singular(w, v));
    }
    forall u: Unit, v: Unit | u != v ensures !IsPrefix(Plural(w, u), Plural(w, v)) {
      EnglishNotPrefix(Plural(w, u), Plural(w, v));
    }
  }

  lemma EnglishWordList()
    ensures forall u :: Plural(EnglishWords, u) in {"days", "hours", "minutes", "seconds"}
    ensures forall u :: Singular(EnglishWords, u) in {"day", "hour", "minute", "second"}
  {
    LowerHourDay();
  }

  lemma EnglishNotPrefix(p: string, s: string)
    requires p in {"days", "hours", "minutes", "seconds"}
    requires s in {"day", "hour", "minute", "second", "days", "hours", "minutes", "seconds"}
    requires p != s
    ensures !IsPrefix(p, s)
  {
    if p[0] == s[0] {
      assert |p| > |s|;
    } else if |p| <= |s| {
      assert s[..|p|][0] != p[0];
    }
  }

  lemma JoinTwo(a: Part, b: Part)
    ensures JoinParts([a, b]) == Render(a) + ", " + Render(b)
  {
    assert [a, b][1..] == [b];
    assert [b][1..] == [];
    assert Tail([b]) == ", " + Render(b) + "";
    assert ", " + Render(b) + "" == ", " + Render(b);
    Assoc(Render(a), ", ", Render(b));
  }

  /** Concatenation regrouped to the left. */
  lemma Assoc(x: string, y: string, z: string)
    ensures x + (y + z) == x + y + z
  {
  }

  lemma JoinFour(a: Part, b: Part, c: Part, d: Part)
    ensures JoinParts([a, b, c, d]) == Render(a) + ", " + Render(b) + ", " + Render(c) + ", " + Render(d)
  {
    JoinCommaCons(a, [b, c, d]);
    assert [a] + [b, c, d] == [a, b, c, d];
    JoinCommaCons(b, [c, d]);
    assert [b] + [c, d] == [b, c, d];
    JoinTwo(c, d);
  }

  /** Staged works segment by segment. */
  lemma {:induction false} StagedPointwise(segs: seq<Segment>, w: ResourceWords, done: set<Unit>)
    ensures |Staged(segs, w, done)| == |segs|
    ensures forall i :: 0 <= i < |segs| ==> Staged(segs, w, done)[i] == StagedPart(segs[i], w, done)
    decreases |segs|
  {
    if segs != [] {
      StagedPointwise(segs[1..], w, done);
    }
  }

  /** The lower-casing of time.hour and time.day. */
  lemma LowerHourDay()
    ensures ToLowerAscii("Hour") == "hour" && ToLowerAscii("Day") == "day"
  {
    var h := ToLowerAscii("Hour");
    var d := ToLowerAscii("Day");
    assert h[0] == 'h' && h[1] == 'o' && h[2] == 'u' && h[3] == 'r';
    assert d[0] == 'd' && d[1] == 'a' && d[2] == 'y';
  }

  lemma EnglishSingulars()
    ensures Singular(EnglishWords, Day) == "day" && Singular(EnglishWords, Hour) == "hour"
  {
    LowerHourDay();
  }

  lemma OneOfEachPhrase()
    ensures Phrase(EnglishWords, 90_061_000, true, true) == "1 day, 1 hour, 1 minute, 1 second"
  {
    OneOfEachSegments();
    OneOfEachParts();
    OneOfEachJoined();
  }

  lemma OneOfEachSegments()
    ensures VisibleSegments(DurationSegments(90_061_000, true), true)
         == [Segment(1, Day), Segment(1, Hour), Segment(1, Minute), Segment(1, Second)]
  {
  }

  lemma OneOfEachParts()
    ensures WordedParts([Segment(1, Day), Segment(1, Hour), Segment(1, Minute), Segment(1, Second)], EnglishWords)
         == [Part(1, "day"), Part(1, "hour"), Part(1, "minute"), Part(1, "second")]
  {
    EnglishSingulars();
    StagedPointwise([Segment(1, Day), Segment(1, Hour), Segment(1, Minute), Segment(1, Second)], EnglishWords, {Day, Hour, Minute, Second});
  }

  lemma OneOfEachJoined()
    ensures JoinParts([Part(1, "day"), Part(1, "hour"), Part(1, "minute"), Part(1, "second")]) == "1 day, 1 hour, 1 minute, 1 second"
  {
    OneOfEachRendered();
    OneOfEachConcat();
  }

  /** The four rendered parts spelled out; kept apart from JoinParts so the literal equality stays cheap. */
  lemma OneOfEachConcat()
    ensures "1 day" + ", " + "1 hour" + ", " + "1 minute" + ", " + "1 second" == "1 day, 1 hour, 1 minute, 1 second"
  {
  }

  lemma OneOfEachRendered()
    ensures JoinParts([Part(1, "day"), Part(1, "hour"), Part(1, "minute"), Part(1, "second")])
         == "1 day" + ", " + "1 hour" + ", " + "1 minute" + ", " + "1 second"
  {
    var a, b, c, d := Part(1, "day"), Part(1, "hour"), Part(1, "minute"), Part(1, "second");
    calc {
      JoinParts([a, b, c, d]);
      == { JoinFour(a, b, c, d); }
      Render(a) + ", " + Render(b) + ", " + Render(c) + ", " + Render(d);
      == { RenderOne("day"); }
      "1 day" + ", " + Render(b) + ", " + Render(c) + ", " + Render(d);
      == { RenderOne("hour"); }
      "1 day" + ", " + "1 hour" + ", " + Render(c) + ", " + Render(d);
      == { RenderOne("minute"); }
      "1 day" + ", " + "1 hour" + ", " + "1 minute" + ", " + Render(d);
      == { RenderOne("second"); }
      "1 day" + ", " + "1 hour" + ", " + "1 minute" + ", " + "1 second";
    }
  }

  lemma RenderOne(word: string)
    ensures Render(Part(1, word)) == "1 " + word
  {
    assert NatToString(1) == "1";
  }

  /** One of each unit: every word singular. */
  lemma OneOfEach()
    ensures FormatDurationAsWords(EnglishWords, 90_061_000, true, true) == "1 day, 1 hour, 1 minute, 1 second"
  {
    EnglishIsHygienic();
    FormatDurationAsWordsIsPhrase(EnglishWords, 90_061_000, true, true);
    OneOfEachPhrase();
  }

  lemma MinutesAndSecondsPhrase()
    ensures Phrase(EnglishWords, 681_000, true, false) == "11 minutes, 21 seconds"
  {
    MinutesAndSecondsSegments();
    MinutesAndSecondsParts();
    MinutesAndSecondsJoined();
  }

  lemma MinutesAndSecondsSegments()
    ensures VisibleSegments(DurationSegments(681_000, true), false) == [Segment(11, Minute), Segment(21, Second)]
  {
    var segs := DurationSegments(681_000, true);
    assert segs == [Segment(0, Hour), Segment(11, Minute), Segment(21, Second)];
    assert NonZero(segs[1..]) == [Segment(11, Minute), Segment(21, Second)];
  }

  lemma MinutesAndSecondsParts()
    ensures WordedParts([Segment(11, Minute), Segment(21, Second)], EnglishWords) == [Part(11, "minutes"), Part(21, "seconds")]
  {
    StagedPointwise([Segment(11, Minute), Segment(21, Second)], EnglishWords, {Day, Hour, Minute, Second});
  }

  lemma MinutesAndSecondsJoined()
    ensures JoinParts([Part(11, "minutes"), Part(21, "seconds")]) == "11 minutes, 21 seconds"
  {
    MinutesAndSecondsRendered();
    assert "11 minutes" + ", " + "21 seconds" == "11 minutes, 21 seconds";
  }

  lemma MinutesAndSecondsRendered()
    ensures JoinParts([Part(11, "minutes"), Part(21, "seconds")]) == "11 minutes" + ", " + "21 seconds"
  {
    var a, b := Part(11, "minutes"), Part(21, "seconds");
    calc {
      JoinParts([a, b]);
      == { JoinTwo(a, b); }
      Render(a) + ", " + Render(b);
      == { TwoDigits(11, "11"); RenderCount(11, "minutes", "11"); }
      "11 minutes" + ", " + Render(b);
      == { TwoDigits(21, "21"); RenderCount(21, "seconds", "21"); }
      "11 minutes" + ", " + "21 seconds";
    }
  }

  lemma TwoDigits(n: nat, numeral: string)
    requires 10 <= n < 100 && numeral == [DigitChar(n / 10), DigitChar(n % 10)]
    ensures NatToString(n) == numeral
  {
  }

  lemma RenderCount(count: nat, word: string, numeral: string)
    requires NatToString(count) == numeral
    ensures Render(Part(count, word)) == numeral + " " + word
  {
  }

  /** Zero hours are hidden, the rest pluralised. */
  lemma MinutesAndSeconds()
    ensures FormatDurationAsWords(EnglishWords, 681_000, true, false) == "11 minutes, 21 seconds"
  {
    EnglishIsHygienic();
    FormatDurationAsWordsIsPhrase(EnglishWords, 681_000, true, false);
    MinutesAndSecondsPhrase();
  }

  lemma OneHourPhrase()
    ensures Phrase(EnglishWords, 3_600_000, false, false) == "1 hour"
  {
    var segs := DurationSegments(3_600_000, false);
    assert segs == [Segment(1, Hour), Segment(0, Minute)];
    assert NonZero(segs[1..]) == [];
    assert VisibleSegments(segs, false) == [Segment(1, Hour)];
    EnglishSingulars();
    assert WordedParts([Segment(1, Hour)], EnglishWords) == [Part(1, "hour")];
    assert NatToString(1) == "1";
  }

  /** A trailing zero segment is hidden. */
  lemma OneHour()
    ensures FormatDurationAsWords(EnglishWords, 3_600_000, false, false) == "1 hour"
  {
    EnglishIsHygienic();
    FormatDurationAsWordsIsPhrase(EnglishWords, 3_600_000, false, false);
    OneHourPhrase();
  }

  lemma HalfMinutePhrase()
    ensures Phrase(EnglishWords, 30_000, false, false) == "0 hours"
  {
    var segs := DurationSegments(30_000, false);
    assert segs == [Segment(0, Hour), Segment(0, Minute)];
    assert NonZero(segs[1..]) == [];
    assert VisibleSegments(segs, false) == [Segment(0, Hour)];
    assert WordedParts([Segment(0, Hour)], EnglishWords) == [Part(0, "hours")];
    assert NatToString(0) == "0";
  }

  /**
   * Under a minute without seconds shown, everything is zero: the leading
   * "0 hours" has nothing after it, so the anchored "^0 hours, " pass does
   * not fire and it stays.
   */
  lemma HalfMinuteReadsZeroHours()
    ensures FormatDurationAsWords(EnglishWords, 30_000, false, false) == "0 hours"
  {
    EnglishIsHygienic();
    FormatDurationAsWordsIsPhrase(EnglishWords, 30_000, false, false);
    HalfMinutePhrase();
  }

  lemma OneMinutePhrase()
    ensures Phrase(EnglishWords, 60_000, false, true) == "0 hours, 1 minute"
  {
    var segs := DurationSegments(60_000, false);
    assert segs == [Segment(0, Hour), Segment(1, Minute)];
    assert WordedParts(segs, EnglishWords) == [Part(0, "hours"), Part(1, "minute")];
    JoinTwo(Part(0, "hours"), Part(1, "minute"));
    assert NatToString(0) == "0" && NatToString(1) == "1";
  }

  /** The one-argument overload keeps zero values and leaves seconds out. */
  lemma OneMinuteDefault()
    ensures FormatDurationAsWordsDefault(EnglishWords, 60_000) == "0 hours, 1 minute"
  {
    EnglishIsHygienic();
    FormatDurationAsWordsIsPhrase(EnglishWords, 60_000, false, true);
    OneMinutePhrase();
  }
}
