/**
  The crontab parser: a field is a comma-separated list of ranges, each `*`, a number or
  name, or two of them joined by a hyphen, with an optional step.
 */
module CronParser {
  import opened Wrappers
  import opened CronBits
  import opened CronTime
  import opened CronSpec
  import opened CronSchedule

  datatype Bounds = Bounds(min: nat, max: nat, names: map<string, nat>)

  const SECONDS := Bounds(0, 59, map[])
  const MINUTES := Bounds(0, 59, map[])
  const HOURS := Bounds(0, 23, map[])
  const DOM := Bounds(1, 31, map[])
  const MONTHS := Bounds(1, 12, map["jan" := 1, "feb" := 2, "mar" := 3, "apr" := 4, "may" := 5, "jun" := 6,
                                    "jul" := 7, "aug" := 8, "sep" := 9, "oct" := 10, "nov" := 11, "dec" := 12])
  const DOW := Bounds(0, 6, map["sun" := 0, "mon" := 1, "tue" := 2, "wed" := 3, "thu" := 4, "fri" := 5, "sat" := 6])

  const MAX_INT: nat := 0x7FFF_FFFF_FFFF_FFFF
  const TWO_TO_THE_64: nat := 0x1_0000_0000_0000_0000

  // ----- Strings

  /** The pieces between separators; always at least one. */
  function Split(s: string, sep: char): (r: seq<string>)
    ensures |r| >= 1
  {
    if s == "" then [""]
    else
      var rest := Split(s[1..], sep);
      if s[0] == sep then [""] + rest else [[s[0]] + rest[0]] + rest[1..]
  }

  /** The non-empty pieces between separators. */
  function Fields(s: string, sep: char): seq<string> {
    NonEmpty(Split(s, sep))
  }

  function NonEmpty(parts: seq<string>): (r: seq<string>)
    ensures forall p :: p in r <==> p in parts && p != ""
  {
    if parts == [] then [] else (if parts[0] != "" then [parts[0]] else []) + NonEmpty(parts[1..])
  }

  /** Unicode lower case, as far as it can produce the letters of a name. */
  function Lower(c: char): char {
    if 'A' <= c <= 'Z' then (c as int + 32) as char
    else if c == '\U{0130}' then 'i'
    else if c == '\U{212A}' then 'k'
    else c
  }

  function ToLower(s: string): string {
    if s == "" then "" else [Lower(s[0])] + ToLower(s[1..])
  }

  predicate IsDigit(c: char) { '0' <= c <= '9' }
  predicate AllDigits(s: string) { forall c :: c in s ==> IsDigit(c) }

  function Value(s: string): nat
    requires AllDigits(s)
  {
    if s == "" then 0
    else
      assert s[|s| - 1] in s && IsDigit(s[|s| - 1]);
      10 * Value(s[..|s| - 1]) + (s[|s| - 1] as int - '0' as int)
  }

  /** A non-negative decimal that fits a signed 64-bit integer; a leading plus sign is allowed. */
  function ParseInt(expr: string): Result<nat> {
    var signed := expr != "" && (expr[0] == '+' || expr[0] == '-');
    var digits := if signed then expr[1..] else expr;
    if digits == "" || !AllDigits(digits) || Value(digits) > MAX_INT then Err
    else if signed && expr[0] == '-' && Value(digits) > 0 then Err
    else Ok(Value(digits))
  }

  function ParseIntOrName(expr: string, names: map<string, nat>): Result<nat> {
    if ToLower(expr) in names then Ok(names[ToLower(expr)]) else ParseInt(expr)
  }

  // ----- Ranges

  datatype Range = Range(start: nat, end: nat, step: nat, star: bool)

  /** What one range expression means, or an error. */
  function ParseRange(expr: string, b: Bounds): Result<Range> {
    var rangeAndStep := Split(expr, '/');
    var lowAndHigh := Split(rangeAndStep[0], '-');
    var whole := lowAndHigh[0] == "*" || lowAndHigh[0] == "?";
    var start :- if whole then Ok(b.min) else ParseIntOrName(lowAndHigh[0], b.names);
    var end :- if whole then Ok(b.max)
               else if |lowAndHigh| == 1 then Ok(start)
               else if |lowAndHigh| == 2 then ParseIntOrName(lowAndHigh[1], b.names)
               else Err;
    var step :- if |rangeAndStep| == 1 then Ok(1)
                else if |rangeAndStep| == 2 then ParseInt(rangeAndStep[1])
                else Err;
    var last := if |rangeAndStep| == 2 && |lowAndHigh| == 1 then b.max else end;
    if start < b.min || last > b.max || start > last || step == 0 then Err
    else Ok(Range(start, last, step, whole && step <= 1))
  }

  /** The numbers of a range: every `step`-th one from its start, up to its end. */
  predicate InRange(r: Range, i: nat)
    requires r.step > 0
  {
    r.start <= i <= r.end && OnStep(r.start, r.step, i)
  }

  predicate OnStep(start: int, step: int, i: int)
    requires step > 0
  {
    (i - start) % step == 0
  }

  /** The value bits of `w` are the numbers of `r`, and its top bit says whether `r` is a star. */
  ghost predicate Encodes(w: Word, r: Range)
    requires r.step > 0
  {
    && (forall i: nat :: i < 63 ==> (i in w <==> InRange(r, i)))
    && (63 in w <==> r.star)
  }

  lemma RangeBounds(expr: string, b: Bounds)
    ensures var r := ParseRange(expr, b);
            r.Ok? ==> b.min <= r.value.start <= r.value.end <= b.max && 0 < r.value.step <= MAX_INT
  {
    hide Split, ToLower, AllDigits, Value;
  }

  // ----- The grammar of ranges

  predicate IsWhole(low: string) { low == "*" || low == "?" }

  function Tail(sep: char, t: Option<string>): string {
    if t.Some? then [sep] + t.value else ""
  }

  /** A low end, perhaps a high end, perhaps a step; what follows the hyphen after a star is ignored. */
  predicate WellFormed(low: string, high: Option<string>, step: Option<string>) {
    && '-' !in low && '/' !in low
    && (high.Some? ==> '/' !in high.value && (IsWhole(low) || '-' !in high.value))
    && (step.Some? ==> '/' !in step.value)
  }

  predicate Denoted(low: string, high: Option<string>, step: Option<string>, b: Bounds, r: Range) {
    && (if step.Some? then ParseInt(step.value) else Ok(1)) == Ok(r.step)
    && (if IsWhole(low) then r.start == b.min && r.end == b.max && (r.star <==> r.step <= 1)
        else
          && ParseIntOrName(low, b.names) == Ok(r.start) && !r.star
          && (if high.Some? then ParseIntOrName(high.value, b.names) == Ok(r.end)
              else r.end == if step.Some? then b.max else r.start))
    && b.min <= r.start <= r.end <= b.max && r.step > 0
  }

  /** The text is put together from pieces that mean the range. */
  ghost predicate Spells(expr: string, b: Bounds, r: Range) {
    exists low, high, step ::
      WellFormed(low, high, step) && expr == low + Tail('-', high) + Tail('/', step) && Denoted(low, high, step, b, r)
  }

  lemma {:induction false} SplitNone(s: string, sep: char)
    requires sep !in s
    ensures Split(s, sep) == [s]
  {
    if s != "" {
      SplitNone(s[1..], sep);
      assert [s[0]] + s[1..] == s;
    }
  }

  /** The first piece ends at the first separator. */
  lemma {:induction false} SplitFirst(a: string, sep: char, rest: string)
    requires sep !in a
    ensures Split(a + [sep] + rest, sep) == [a] + Split(rest, sep)
  {
    var s := a + [sep] + rest;
    if a == "" {
      assert s[1..] == rest;
    } else {
      assert s[1..] == a[1..] + [sep] + rest;
      SplitFirst(a[1..], sep, rest);
      assert [a[0]] + a[1..] == a;
    }
  }

  /** The text before the first separator, and the text after it if there is one. */
  lemma {:induction false} Cut(s: string, sep: char) returns (rest: Option<string>)
    ensures var first := Split(s, sep)[0];
            && sep !in first && s == first + Tail(sep, rest)
            && (if rest.Some? then Split(s, sep) == [first] + Split(rest.value, sep) else Split(s, sep) == [first])
  {
    if s == "" {
      rest := None;
    } else if s[0] == sep {
      rest := Some(s[1..]);
      assert s == "" + ([sep] + s[1..]);
    } else {
      rest := Cut(s[1..], sep);
      var first := Split(s[1..], sep)[0];
      assert s == [s[0]] + s[1..] == [s[0]] + (first + Tail(sep, rest)) == ([s[0]] + first) + Tail(sep, rest);
    }
  }

  lemma TailPieces(a: string, sep: char, t: Option<string>)
    requires sep !in a && (t.Some? ==> sep !in t.value)
    ensures Split(a + Tail(sep, t), sep) == if t.Some? then [a, t.value] else [a]
  {
    hide Split;
    if t.Some? {
      SplitFirst(a, sep, t.value);
      SplitNone(t.value, sep);
      assert a + [sep] + t.value == a + ([sep] + t.value);
    } else {
      SplitNone(a, sep);
      assert a + "" == a;
    }
  }

  lemma SpelledIsParsed(expr: string, b: Bounds, r: Range)
    requires Spells(expr, b, r)
    ensures ParseRange(expr, b) == Ok(r)
  {
    hide Split, ParseInt, ParseIntOrName;
    var low, high, step :|
      WellFormed(low, high, step) && expr == low + Tail('-', high) + Tail('/', step) && Denoted(low, high, step, b, r);
    var body := low + Tail('-', high);
    TailPieces(body, '/', step);
    if high.Some? {
      assert body == low + ['-'] + high.value;
      SplitFirst(low, '-', high.value);
      if !IsWhole(low) {
        SplitNone(high.value, '-');
      }
    } else {
      TailPieces(low, '-', high);
    }
  }

  lemma ParsedIsSpelled(expr: string, b: Bounds)
    requires ParseRange(expr, b).Ok?
    ensures Spells(expr, b, ParseRange(expr, b).value)
  {
    hide Split, ParseInt, ParseIntOrName;
    var step := Cut(expr, '/');
    var body := Split(expr, '/')[0];
    var high := Cut(body, '-');
    var low := Split(body, '-')[0];
    if step.Some? {
      NoMore(step.value, '/');
      assert '/' !in step.value;
    }
    if high.Some? && !IsWhole(low) {
      NoMore(high.value, '-');
    }
    assert WellFormed(low, high, step);
    assert expr == low + Tail('-', high) + Tail('/', step);
    assert Denoted(low, high, step, b, ParseRange(expr, b).value);
  }

  /** A text that is one piece has no separator. */
  lemma NoMore(s: string, sep: char)
    ensures |Split(s, sep)| == 1 ==> sep !in s && Split(s, sep) == [s]
  {
    hide Split;
    var rest := Cut(s, sep);
    if rest.None? {
      assert Split(s, sep)[0] + Tail(sep, rest) == Split(s, sep)[0];
    }
  }

  /** A text parses as a range exactly when it spells that range. */
  lemma SpellsExactly(expr: string, b: Bounds, r: Range)
    ensures Spells(expr, b, r) <==> ParseRange(expr, b) == Ok(r)
  {
    hide ParseRange, Spells;
    if Spells(expr, b, r) {
      SpelledIsParsed(expr, b, r);
    } else if ParseRange(expr, b) == Ok(r) {
      ParsedIsSpelled(expr, b);
    }
  }

  lemma AllSpellings(expr: string, b: Bounds)
    ensures forall r :: Spells(expr, b, r) <==> ParseRange(expr, b) == Ok(r)
    ensures (exists r :: Spells(expr, b, r)) <==> ParseRange(expr, b).Ok?
  {
    hide ParseRange, Spells;
    forall r
      ensures Spells(expr, b, r) <==> ParseRange(expr, b) == Ok(r)
    {
      SpellsExactly(expr, b, r);
    }
    if ParseRange(expr, b).Ok? {
      assert Spells(expr, b, ParseRange(expr, b).value);
    }
  }

  lemma OneBit(i: nat)
    requires i < 64
    ensures Shl(ONE, i) == {i}
  {
  }

  lemma ShiftForm(lo: nat, hi: nat)
    requires lo <= hi < 63
    ensures Encodes(And(Not(Shl(ALL_ONES, hi + 1)), Shl(ALL_ONES, lo)), Range(lo, hi, 1, false))
  {
  }

  lemma StartOnStep(start: int, step: int)
    requires step > 0
    ensures OnStep(start, step, start)
  {
  }

  /** From one step the next one is `step` away, with none between. */
  lemma NextOnStep(start: int, step: int, i: int, j: int)
    requires step > 0 && OnStep(start, step, i) && i < j <= i + step
    ensures OnStep(start, step, j) <==> j == i + step
  {
    var q := (i - start) / step;
    assert i - start == q * step;
    if j == i + step {
      assert (q + 1) * step == q * step + step;
      Quotient(j - start, step, q + 1, 0);
    } else {
      Quotient(j - start, step, q, j - i);
    }
  }

  lemma Quotient(n: int, d: int, q: int, r: int)
    requires d > 0 && 0 <= r < d && n == q * d + r
    ensures n % d == r
  {
    MulBounds(n / d - q, d);
    assert (n / d - q) * d == n / d * d - q * d;
  }

  lemma MulBounds(k: int, d: int)
    requires d > 0
    ensures k >= 1 ==> k * d >= d
    ensures k <= -1 ==> k * d <= -d
  {
  }

  /** Every `step`-th bit from `lo` to `hi`: by shifts when the step is 1, else by a loop that cannot wrap. */
  method GetBits(lo: nat, hi: nat, step: nat) returns (w: Word)
    requires lo <= hi < 63 && 0 < step <= MAX_INT
    ensures Encodes(w, Range(lo, hi, step, false))
  {
    hide Shl, Encodes, OnStep;
    if step == 1 {
      w := And(Not(Shl(ALL_ONES, hi + 1)), Shl(ALL_ONES, lo));
      ShiftForm(lo, hi);
      return;
    }
    w := ZERO;
    var i := lo;
    StartOnStep(lo, step);
    while i <= hi
      invariant lo <= i && OnStep(lo, step, i)
      invariant forall j: nat :: j in w <==> lo <= j < i && j <= hi && OnStep(lo, step, j)
      decreases hi - i
    {
      OneBit(i);
      w := Or(w, Shl(ONE, i));
      assert i + step < TWO_TO_THE_64;
      forall j | i < j <= i + step
        ensures OnStep(lo, step, j) <==> j == i + step
      {
        NextOnStep(lo, step, i, j);
      }
      i := (i + step) % TWO_TO_THE_64;
    }
    LoopForm(w, lo, hi, step);
  }

  lemma LoopForm(w: Word, lo: nat, hi: nat, step: nat)
    requires lo <= hi < 63 && 0 < step
    requires forall j: nat :: j in w <==> lo <= j <= hi && OnStep(lo, step, j)
    ensures Encodes(w, Range(lo, hi, step, false))
  {
    hide OnStep;
  }

  /** One range, or an error exactly when the text does not spell one. */
  method GetRange(expr: string, b: Bounds) returns (w: Result<Word>)
    requires b.max < 63
    ensures w.Ok? <==> exists r :: Spells(expr, b, r)
    ensures forall r :: Spells(expr, b, r) ==> r.step > 0 && w.Ok? && Encodes(w.value, r)
    ensures w.Ok? <==> ParseRange(expr, b).Ok?
    ensures w.Ok? ==> ParseRange(expr, b).value.step > 0 && Encodes(w.value, ParseRange(expr, b).value)
  {
    hide Split, ToLower, AllDigits, Value, Encodes, Spells, ParseInt, ParseIntOrName;
    AllSpellings(expr, b);
    var rangeAndStep := Split(expr, '/');
    var lowAndHigh := Split(rangeAndStep[0], '-');
    var singleDigit := |lowAndHigh| == 1;
    var start, end, step := 0, 0, 1;
    var extra := ZERO;
    if lowAndHigh[0] == "*" || lowAndHigh[0] == "?" {
      start, end, extra := b.min, b.max, STAR_BIT;
    } else {
      start :- ParseIntOrName(lowAndHigh[0], b.names);
      if |lowAndHigh| == 1 {
        end := start;
      } else if |lowAndHigh| == 2 {
        end :- ParseIntOrName(lowAndHigh[1], b.names);
      } else {
        return Err;
      }
    }
    if |rangeAndStep| == 2 {
      step :- ParseInt(rangeAndStep[1]);
      if singleDigit {
        end := b.max;
      }
      if step > 1 {
        extra := ZERO;
      }
    } else if |rangeAndStep| != 1 {
      return Err;
    }
    if start < b.min || end > b.max || start > end || step == 0 {
      return Err;
    }
    StepFits(expr, b);
    var bits := GetBits(start, end, step);
    AddStar(bits, extra, Range(start, end, step, extra == STAR_BIT));
    return Ok(Or(bits, extra));
  }

  lemma AddStar(bits: Word, extra: Word, r: Range)
    requires r.step > 0 && r.end < 63 && Encodes(bits, r.(star := false)) && extra == (if r.star then STAR_BIT else ZERO)
    ensures Encodes(Or(bits, extra), r)
  {
  }

  lemma StepFits(expr: string, b: Bounds)
    ensures var parts := Split(expr, '/');
            |parts| == 2 && ParseInt(parts[1]).Ok? ==> ParseInt(parts[1]).value <= MAX_INT
  {
    hide Split, AllDigits, Value;
  }

  // ----- Fields

  predicate Accepted(field: string, b: Bounds) {
    forall part :: part in Fields(field, ',') ==> ParseRange(part, b).Ok?
  }

  /** A number belongs to a field if some range of it contains the number. */
  ghost predicate Denotes(field: string, b: Bounds, i: nat) {
    exists part :: part in Fields(field, ',') && PartHas(part, b, i)
  }

  predicate PartHas(part: string, b: Bounds, i: nat) {
    var r := ParseRange(part, b);
    r.Ok? && r.value.step > 0 && InRange(r.value, i)
  }

  ghost predicate HasStar(field: string, b: Bounds) {
    exists part :: part in Fields(field, ',') && PartIsStar(part, b)
  }

  predicate PartIsStar(part: string, b: Bounds) {
    var r := ParseRange(part, b);
    r.Ok? && r.value.star
  }

  ghost predicate FieldEncoded(w: Word, field: string, b: Bounds) {
    && (forall i: nat :: i < 63 ==> (i in w <==> Denotes(field, b, i)))
    && (63 in w <==> HasStar(field, b))
  }

  /** One range, added to those before it. */
  lemma AddPart(parts: seq<string>, k: nat, b: Bounds, bits: Word, bit: Word)
    requires k < |parts| && ParseRange(parts[k], b).Ok? && ParseRange(parts[k], b).value.step > 0
    requires Encodes(bit, ParseRange(parts[k], b).value) && PartsEncoded(bits, parts[..k], b)
    ensures PartsEncoded(Or(bits, bit), parts[..k + 1], b)
  {
    hide ParseRange, InRange;
    assert parts[..k + 1] == parts[..k] + [parts[k]];
    assert forall p :: p in parts[..k + 1] <==> p in parts[..k] || p == parts[k];
    forall i: nat | i < 63
      ensures i in Or(bits, bit) <==> exists part :: part in parts[..k + 1] && PartHas(part, b, i)
    {
      assert i in bit <==> PartHas(parts[k], b, i);
    }
    assert 63 in bit <==> PartIsStar(parts[k], b);
  }

  ghost predicate PartsEncoded(w: Word, parts: seq<string>, b: Bounds) {
    && (forall i: nat :: i < 63 ==> (i in w <==> exists part :: part in parts && PartHas(part, b, i)))
    && (63 in w <==> exists part :: part in parts && PartIsStar(part, b))
  }

  /** The union of the ranges of a field, or an error exactly when some range is one. */
  method GetField(field: string, b: Bounds) returns (w: Result<Word>)
    requires b.max < 63
    ensures w.Ok? <==> Accepted(field, b)
    ensures w.Ok? ==> FieldEncoded(w.value, field, b)
  {
    hide ParseRange, Encodes, PartHas, PartIsStar, Fields, Spells;
    var ranges := Fields(field, ',');
    var bits := ZERO;
    for k := 0 to |ranges|
      invariant forall j :: 0 <= j < k ==> ParseRange(ranges[j], b).Ok?
      invariant PartsEncoded(bits, ranges[..k], b)
    {
      var bit := GetRange(ranges[k], b);
      if bit.Err? {
        assert ranges[k] in ranges;
        return Err;
      }
      AddPart(ranges, k, b, bits, bit.value);
      bits := Or(bits, bit.value);
    }
    assert ranges[..|ranges|] == ranges;
    return Ok(bits);
  }

  // ----- A whole specification

  ghost predicate AllAccepted(fs: seq<string>)
    requires |fs| == 6
  {
    && Accepted(fs[0], SECONDS) && Accepted(fs[1], MINUTES) && Accepted(fs[2], HOURS)
    && Accepted(fs[3], DOM) && Accepted(fs[4], MONTHS) && Accepted(fs[5], DOW)
  }

  /** The wall-clock seconds that six crontab fields describe. */
  ghost predicate Describes(fs: seq<string>, l: int)
    requires |fs| == 6
  {
    var domMatch := Denotes(fs[3], DOM, DayOf(l));
    var dowMatch := Denotes(fs[5], DOW, WeekdayOf(l));
    && Denotes(fs[0], SECONDS, SecondOf(l))
    && Denotes(fs[1], MINUTES, MinuteOf(l))
    && Denotes(fs[2], HOURS, HourOf(l))
    && Denotes(fs[4], MONTHS, MonthOf(l))
    && (if HasStar(fs[3], DOM) || HasStar(fs[5], DOW) then domMatch && dowMatch else domMatch || dowMatch)
  }

  /**
    Parses the five fields of a standard specification; the seconds field defaults to 0.
    The schedule matches exactly the seconds the text describes.
   */
  method ParseFields(fields: seq<string>, zone: Zone) returns (r: Result<SpecSchedule>)
    ensures r.Ok? <==> |fields| == 5 && AllAccepted(["0"] + fields)
    ensures r.Ok? ==> r.value.location == zone
    ensures r.Ok? ==> forall l :: Matches(r.value, l) <==> Describes(["0"] + fields, l)
  {
    hide Accepted, FieldEncoded, Matches, Describes;
    if |fields| != 5 {
      return Err;
    }
    var fs := ["0"] + fields;
    var second :- GetField(fs[0], SECONDS);
    var minute :- GetField(fs[1], MINUTES);
    var hour :- GetField(fs[2], HOURS);
    var dom :- GetField(fs[3], DOM);
    var month :- GetField(fs[4], MONTHS);
    var dow :- GetField(fs[5], DOW);
    var s := SpecSchedule(second, minute, hour, dom, month, dow, zone);
    forall l
      ensures Matches(s, l) <==> Describes(fs, l)
    {
      MatchesFields(s, fs, l);
    }
    return Ok(s);
  }

  lemma MatchesFields(s: SpecSchedule, fs: seq<string>, l: int)
    requires |fs| == 6
    requires FieldEncoded(s.second, fs[0], SECONDS) && FieldEncoded(s.minute, fs[1], MINUTES)
    requires FieldEncoded(s.hour, fs[2], HOURS) && FieldEncoded(s.dom, fs[3], DOM)
    requires FieldEncoded(s.month, fs[4], MONTHS) && FieldEncoded(s.dow, fs[5], DOW)
    ensures Matches(s, l) <==> Describes(fs, l)
  {
    hide SecondOf, MinuteOf, HourOf, DayOf, WeekdayOf, MonthOf, Denotes, HasStar, HasBit;
    HasBitIsMember(s.second, SecondOf(l));
    HasBitIsMember(s.minute, MinuteOf(l));
    HasBitIsMember(s.hour, HourOf(l));
    HasBitIsMember(s.dom, DayOf(l));
    HasBitIsMember(s.month, MonthOf(l));
    HasBitIsMember(s.dow, WeekdayOf(l));
    StarIsMember(s.dom);
    StarIsMember(s.dow);
  }

  lemma StarIsMember(w: Word)
    ensures And(w, STAR_BIT) != ZERO <==> 63 in w
  {
    if 63 in w {
      assert 63 in And(w, STAR_BIT);
    } else {
      assert And(w, STAR_BIT) == {};
    }
  }

  // ----- Every kind of range reads back as it is written

  datatype Atom = Number(n: nat) | Name(name: string)

  datatype Text =
    | Whole(mark: string, step: Option<nat>)
    | From(low: Atom, high: Option<Atom>, step: Option<nat>)

  function Show(n: nat): (s: string)
    ensures s != "" && AllDigits(s)
  {
    var last := [('0' as int + n % 10) as char];
    if n < 10 then last else Show(n / 10) + last
  }

  function ShowAtom(a: Atom): string {
    match a
    case Number(n) => Show(n)
    case Name(name) => name
  }

  function ShowStep(step: Option<nat>): Option<string> {
    if step.Some? then Some(Show(step.value)) else None
  }

  function Print(t: Text): string {
    match t
    case Whole(mark, step) => mark + Tail('-', None) + Tail('/', ShowStep(step))
    case From(low, high, step) =>
      ShowAtom(low) + Tail('-', if high.Some? then Some(ShowAtom(high.value)) else None) + Tail('/', ShowStep(step))
  }

  function AtomValue(a: Atom, b: Bounds): nat
    requires a.Name? ==> ToLower(a.name) in b.names
  {
    match a
    case Number(n) => n
    case Name(name) => b.names[ToLower(name)]
  }

  predicate Known(a: Atom, b: Bounds) {
    if a.Name? then ToLower(a.name) in b.names else a.n <= MAX_INT
  }

  predicate Proper(t: Text, b: Bounds) {
    match t
    case Whole(mark, _) => IsWhole(mark)
    case From(low, high, _) => Known(low, b) && (high.Some? ==> Known(high.value, b))
  }

  function Meaning(t: Text, b: Bounds): Range
    requires Proper(t, b)
  {
    var step := if t.step.Some? then t.step.value else 1;
    match t
    case Whole(_, _) => Range(b.min, b.max, step, step <= 1)
    case From(low, high, _) =>
      Range(AtomValue(low, b),
            if high.Some? then AtomValue(high.value, b) else if t.step.Some? then b.max else AtomValue(low, b),
            step, false)
  }

  predicate Sensible(r: Range, b: Bounds) {
    b.min <= r.start <= r.end <= b.max && 0 < r.step <= MAX_INT
  }

  /** Names do not look like numbers or contain punctuation. */
  predicate Named(b: Bounds) {
    forall name :: name in b.names ==>
      !AllDigits(name) && '-' !in name && '/' !in name && !IsWhole(name)
  }

  lemma {:induction false} ValueOfShow(n: nat)
    ensures Value(Show(n)) == n
  {
    var last := [('0' as int + n % 10) as char];
    if n >= 10 {
      ValueOfShow(n / 10);
      var s := Show(n / 10) + last;
      assert s[..|s| - 1] == Show(n / 10);
    } else {
      assert last[..0] == "";
    }
  }

  lemma {:induction false} LowerDigits(s: string)
    requires AllDigits(s)
    ensures ToLower(s) == s
  {
    if s != "" {
      assert IsDigit(s[0]);
      LowerDigits(s[1..]);
    }
  }

  lemma ParseShown(n: nat, names: map<string, nat>)
    requires n <= MAX_INT && forall name :: name in names ==> !AllDigits(name)
    ensures ParseInt(Show(n)) == Ok(n) && ParseIntOrName(Show(n), names) == Ok(n)
    ensures '/' !in Show(n) && '-' !in Show(n) && Show(n) != "*" && Show(n) != "?"
  {
    ValueOfShow(n);
    LowerDigits(Show(n));
    assert IsDigit(Show(n)[0]);
  }

  lemma {:induction false} LowerKeeps(s: string, c: char)
    requires c in s && Lower(c) == c
    ensures c in ToLower(s)
  {
    if s[0] != c {
      LowerKeeps(s[1..], c);
    }
  }

  lemma ShownAtom(a: Atom, b: Bounds)
    requires Named(b) && Known(a, b)
    ensures ParseIntOrName(ShowAtom(a), b.names) == Ok(AtomValue(a, b))
    ensures '/' !in ShowAtom(a) && '-' !in ShowAtom(a) && !IsWhole(ShowAtom(a))
  {
    match a
    case Number(n) => ParseShown(n, b.names);
    case Name(name) =>
      if '/' in name {
        LowerKeeps(name, '/');
      }
      if '-' in name {
        LowerKeeps(name, '-');
      }
      assert ToLower("*") == "*" && ToLower("?") == "?";
  }

  /** Every kind of range, with any numbers and names in any case, parses to what it was printed from. */
  lemma ReadBack(t: Text, b: Bounds)
    requires Named(b) && Proper(t, b) && Sensible(Meaning(t, b), b)
    ensures ParseRange(Print(t), b) == Ok(Meaning(t, b))
  {
    hide Show, ParseInt, ParseIntOrName, ParseRange, ToLower;
    if t.step.Some? {
      ParseShown(t.step.value, map[]);
    }
    var step := ShowStep(t.step);
    match t {
      case Whole(mark, _) =>
        assert WellFormed(mark, None, step) && Denoted(mark, None, step, b, Meaning(t, b));
      case From(low, high, _) =>
        ShownAtom(low, b);
        if high.Some? {
          ShownAtom(high.value, b);
        }
        var top := if high.Some? then Some(ShowAtom(high.value)) else None;
        assert WellFormed(ShowAtom(low), top, step) && Denoted(ShowAtom(low), top, step, b, Meaning(t, b));
    }
    SpelledIsParsed(Print(t), b, Meaning(t, b));
  }

  // ----- Descriptors

  /** All bits within bounds, and the star. */
  function All(b: Bounds): Word
    requires b.max < 63
  {
    Or(And(Not(Shl(ALL_ONES, b.max + 1)), Shl(ALL_ONES, b.min)), STAR_BIT)
  }

  datatype Descriptor = Yearly | Monthly | Weekly | Daily | Hourly

  function DescriptorSchedule(d: Descriptor, zone: Zone): SpecSchedule {
    SpecSchedule(Shl(ONE, 0), Shl(ONE, 0),
                 if d.Hourly? then All(HOURS) else Shl(ONE, 0),
                 if d.Yearly? || d.Monthly? then Shl(ONE, 1) else All(DOM),
                 if d.Yearly? then Shl(ONE, 1) else All(MONTHS),
                 if d.Weekly? then Shl(ONE, 0) else All(DOW),
                 zone)
  }

  lemma AllIsEverything(b: Bounds, i: nat)
    requires b.min <= i <= b.max < 63
    ensures HasBit(All(b), i) && 63 in All(b)
  {
    HasBitIsMember(All(b), i);
  }

  lemma OnlyOne(j: nat, i: nat)
    requires j < 63
    ensures HasBit(Shl(ONE, j), i) <==> i == j
    ensures 63 !in Shl(ONE, j)
  {
    HasBitIsMember(Shl(ONE, j), i);
    OneBit(j);
  }

  /** The first second of a period. */
  predicate StartsPeriod(d: Descriptor, l: int) {
    && SecondOf(l) == 0 && MinuteOf(l) == 0
    && (d.Hourly? || HourOf(l) == 0)
    && (d.Weekly? ==> WeekdayOf(l) == 0)
    && (d.Monthly? || d.Yearly? ==> DayOf(l) == 1)
    && (d.Yearly? ==> MonthOf(l) == 1)
  }

  /** Each descriptor means the period it names: its first second, and no other. */
  lemma DescriptorMeaning(d: Descriptor, zone: Zone, l: int)
    ensures Matches(DescriptorSchedule(d, zone), l) <==> StartsPeriod(d, l)
  {
    hide SecondOf, MinuteOf, HourOf, DayOf, WeekdayOf, MonthOf, HasBit, Shl, All;
    OnlyOne(0, SecondOf(l));
    OnlyOne(0, MinuteOf(l));
    OnlyOne(0, HourOf(l));
    OnlyOne(1, DayOf(l));
    OnlyOne(1, MonthOf(l));
    OnlyOne(0, WeekdayOf(l));
    AllIsEverything(HOURS, HourOf(l));
    AllIsEverything(DOM, DayOf(l));
    AllIsEverything(MONTHS, MonthOf(l));
    AllIsEverything(DOW, WeekdayOf(l));
    StarIsMember(DescriptorSchedule(d, zone).dom);
    StarIsMember(DescriptorSchedule(d, zone).dow);
  }

  function DescriptorNamed(name: string): Option<Descriptor> {
    if name == "@yearly" || name == "@annually" then Some(Yearly)
    else if name == "@monthly" then Some(Monthly)
    else if name == "@weekly" then Some(Weekly)
    else if name == "@daily" || name == "@midnight" then Some(Daily)
    else if name == "@hourly" then Some(Hourly)
    else None
  }

  // ----- Whole texts

  predicate IsSpace(c: char) {
    || c in "\t\n\r \U{000B}\U{000C}\U{0085}\U{00A0}\U{1680}\U{2028}\U{2029}\U{202F}\U{205F}\U{3000}"
    || '\U{2000}' <= c <= '\U{200A}'
  }

  function Blanks(s: string): (r: string)
    ensures |r| == |s|
  {
    if s == "" then "" else [if IsSpace(s[0]) then ' ' else s[0]] + Blanks(s[1..])
  }

  /** The pieces between white space. */
  function Words(s: string): seq<string> {
    Fields(Blanks(s), ' ')
  }

  function TrimSpace(s: string): string {
    if s == "" then ""
    else if IsSpace(s[0]) then TrimSpace(s[1..])
    else if IsSpace(s[|s| - 1]) then TrimSpace(s[..|s| - 1])
    else s
  }

  function Index(s: string, c: char): (i: nat)
    requires c in s
    ensures i < |s| && s[i] == c && c !in s[..i]
  {
    if s[0] == c then 0 else 1 + Index(s[1..], c)
  }

  /** How long the prefix is that announces a time zone. */
  function ZonePrefix(spec: string): (n: Option<nat>)
    ensures n.Some? ==> 0 < n.value <= |spec| && ' ' !in spec[..n.value]
  {
    if "TZ=" <= spec then Some(3) else if "CRON_TZ=" <= spec then Some(8) else None
  }

  /** The time zone of a text, and the text that is left. */
  function Located(spec: string, load: string -> Result<Zone>): Result<(Zone, string)>
    requires ZonePrefix(spec).Some? ==> ' ' in spec
  {
    if ZonePrefix(spec).None? then Ok((Given, spec))
    else
      var i := Index(spec, ' ');
      var zone :- load(spec[ZonePrefix(spec).value..i]);
      Ok((zone, TrimSpace(spec[i..])))
  }

  /** What a text without its time zone means, as a schedule or as an error. */
  ghost predicate Understood(body: string, zone: Zone, duration: string -> Result<int>, r: Result<Schedule>) {
    if DescriptorNamed(body).Some? then
      && r.Ok? && r.value.Spec? && r.value.spec.location == zone
      && forall l :: Matches(r.value.spec, l) <==> StartsPeriod(DescriptorNamed(body).value, l)
    else if "@every " <= body then
      r == if duration(body[7..]).Ok? then Ok(Every(duration(body[7..]).value)) else Err
    else if "@" <= body then r == Err
    else
      && (r.Ok? <==> |Words(body)| == 5 && AllAccepted(["0"] + Words(body)))
      && (r.Ok? ==>
            && r.value.Spec? && r.value.spec.location == zone
            && forall l :: Matches(r.value.spec, l) <==> Describes(["0"] + Words(body), l))
  }

  method ParseDescriptor(body: string, zone: Zone, duration: string -> Result<int>) returns (r: Result<Schedule>)
    requires "@" <= body
    ensures Understood(body, zone, duration, r)
  {
    hide Matches, StartsPeriod, DescriptorSchedule;
    var named := DescriptorNamed(body);
    if named.Some? {
      forall l
        ensures Matches(DescriptorSchedule(named.value, zone), l) <==> StartsPeriod(named.value, l)
      {
        DescriptorMeaning(named.value, zone, l);
      }
      assert DescriptorSchedule(named.value, zone).location == zone by { DescriptorZone(named.value, zone); }
      return Ok(Spec(DescriptorSchedule(named.value, zone)));
    }
    if "@every " <= body {
      var d :- duration(body[7..]);
      return Ok(Every(d));
    }
    return Err;
  }

  lemma DescriptorZone(d: Descriptor, zone: Zone)
    ensures DescriptorSchedule(d, zone).location == zone
  {
  }

  /** Parses a standard specification; a time zone prefix must be followed by a space. */
  method ParseStandard(spec: string, load: string -> Result<Zone>, duration: string -> Result<int>)
    returns (r: Result<Schedule>)
    requires ZonePrefix(spec).Some? ==> ' ' in spec
    ensures spec == "" || Located(spec, load).Err? ==> r == Err
    ensures spec != "" && Located(spec, load).Ok? ==>
              Understood(Located(spec, load).value.1, Located(spec, load).value.0, duration, r)
  {
    hide AllAccepted, Describes, Matches, Words, TrimSpace, DescriptorNamed;
    if |spec| == 0 {
      return Err;
    }
    var loc, body := Given, spec;
    if "TZ=" <= spec || "CRON_TZ=" <= spec {
      FirstEquals(spec);
      var i := Index(spec, ' ');
      var eq := Index(spec, '=');
      loc :- load(spec[eq + 1..i]);
      body := TrimSpace(spec[i..]);
    }
    if "@" <= body {
      r := ParseDescriptor(body, loc, duration);
      return;
    }
    assert DescriptorNamed(body).None? && !("@every " <= body) by { NotDescriptor(body); }
    var s :- ParseFields(Words(body), loc);
    return Ok(Spec(s));
  }

  lemma NotDescriptor(body: string)
    requires !("@" <= body)
    ensures DescriptorNamed(body).None? && !("@every " <= body)
  {
  }

  lemma {:induction false} IndexFrom(s: string, c: char, n: nat)
    requires c in s && n <= |s| && c !in s[..n]
    ensures n <= Index(s, c) && (n < |s| && s[n] == c ==> Index(s, c) == n)
  {
    if n > 0 {
      assert s[0] in s[..n] && s[1..][..n - 1] == s[..n][1..];
      IndexFrom(s[1..], c, n - 1);
    }
  }

  lemma FirstEquals(spec: string)
    requires ZonePrefix(spec).Some? && ' ' in spec
    ensures '=' in spec && Index(spec, '=') + 1 == ZonePrefix(spec).value <= Index(spec, ' ')
  {
    var n := ZonePrefix(spec).value;
    assert spec[n - 1] == '=' && '=' !in spec[..n - 1];
    IndexFrom(spec, '=', n - 1);
    IndexFrom(spec, ' ', n);
  }

  // ----- Fields are told apart by any white space

  /** Fields joined by single white-space characters. */
  function Joined(fs: seq<string>, gaps: string): string
    requires fs != [] && |gaps| == |fs| - 1
    decreases |fs|
  {
    if |fs| == 1 then fs[0] else fs[0] + [gaps[0]] + Joined(fs[1..], gaps[1..])
  }

  predicate IsWord(s: string) { s != "" && forall c :: c in s ==> !IsSpace(c) }

  lemma {:induction false} BlanksSplit(a: string, b: string)
    ensures Blanks(a + b) == Blanks(a) + Blanks(b)
  {
    if a == "" {
      assert a + b == b;
    } else {
      assert (a + b)[1..] == a[1..] + b;
      BlanksSplit(a[1..], b);
    }
  }

  lemma {:induction false} BlanksWord(s: string)
    requires forall c :: c in s ==> !IsSpace(c)
    ensures Blanks(s) == s && ' ' !in s
  {
    if s != "" {
      BlanksWord(s[1..]);
      assert s == [s[0]] + s[1..];
      assert !IsSpace(s[0]);
    }
  }

  lemma {:induction false} WordsOfJoined(fs: seq<string>, gaps: string)
    requires fs != [] && |gaps| == |fs| - 1 && (forall f :: f in fs ==> IsWord(f)) && forall c :: c in gaps ==> IsSpace(c)
    ensures Words(Joined(fs, gaps)) == fs
    decreases |fs|
  {
    hide Split, Blanks, IsSpace;
    assert fs[0] in fs;
    BlanksWord(fs[0]);
    if |fs| == 1 {
      SplitNone(fs[0], ' ');
      assert NonEmpty([fs[0]]) == [fs[0]] + NonEmpty([]);
    } else {
      var rest := Joined(fs[1..], gaps[1..]);
      WordsOfJoined(fs[1..], gaps[1..]);
      BlanksSplit(fs[0] + [gaps[0]], rest);
      BlanksSplit(fs[0], [gaps[0]]);
      assert Blanks([gaps[0]]) == [' '] by { BlankGap(gaps[0]); }
      SplitFirst(fs[0], ' ', Blanks(rest));
      var tail := Split(Blanks(rest), ' ');
      assert ([fs[0]] + tail)[1..] == tail;
      assert fs == [fs[0]] + fs[1..];
    }
  }

  lemma BlankGap(c: char)
    requires IsSpace(c)
    ensures Blanks([c]) == [' ']
  {
    assert [c][1..] == "";
  }

  /** Pieces joined by a separator are found again. */
  function JoinedBy(fs: seq<string>, sep: char): string
    requires fs != []
  {
    if |fs| == 1 then fs[0] else fs[0] + [sep] + JoinedBy(fs[1..], sep)
  }

  lemma {:induction false} FieldsOfJoined(fs: seq<string>, sep: char)
    requires fs != [] && forall f :: f in fs ==> f != "" && sep !in f
    ensures Fields(JoinedBy(fs, sep), sep) == fs
  {
    hide Split;
    assert fs[0] in fs;
    if |fs| == 1 {
      SplitNone(fs[0], sep);
      assert NonEmpty([fs[0]]) == [fs[0]] + NonEmpty([]);
    } else {
      assert forall f :: f in fs[1..] ==> f in fs;
      FieldsOfJoined(fs[1..], sep);
      SplitFirst(fs[0], sep, JoinedBy(fs[1..], sep));
      var tail := Split(JoinedBy(fs[1..], sep), sep);
      assert ([fs[0]] + tail)[1..] == tail;
      assert fs == [fs[0]] + fs[1..];
    }
  }

  // ----- Time zones

  predicate AllSpace(s: string) { forall c :: c in s ==> IsSpace(c) }

  /** Trimming removes white space at both ends, and nothing else. */
  lemma {:induction false} Trimmed(s: string) returns (a: string, b: string)
    ensures s == a + TrimSpace(s) + b && AllSpace(a) && AllSpace(b)
    ensures var t := TrimSpace(s); t == "" || (!IsSpace(t[0]) && !IsSpace(t[|t| - 1]))
    decreases |s|
  {
    hide IsSpace, AllSpace;
    NoSpace();
    if s == "" {
      return "", "";
    } else if IsSpace(s[0]) {
      a, b := Trimmed(s[1..]);
      var t := TrimSpace(s);
      MoreSpace(s[0], a);
      assert s == [s[0]] + s[1..];
      Regroup([s[0]], a, t, b);
      a := [s[0]] + a;
    } else if IsSpace(s[|s| - 1]) {
      var n := |s| - 1;
      a, b := Trimmed(s[..n]);
      var t := TrimSpace(s);
      MoreSpace(s[n], b);
      assert s == s[..n] + [s[n]];
      Regroup(a, t, b, [s[n]]);
      b := b + [s[n]];
    } else {
      a, b := "", "";
      assert "" + s + "" == s;
    }
  }

  lemma Regroup(a: string, b: string, c: string, d: string)
    ensures a + (b + c + d) == (a + b) + c + d && (a + b + c) + d == a + b + (c + d)
  {
  }

  lemma NoSpace()
    ensures AllSpace("")
  {
  }

  lemma MoreSpace(c: char, s: string)
    requires IsSpace(c) && AllSpace(s)
    ensures AllSpace([c] + s) && AllSpace(s + [c])
  {
    hide IsSpace;
  }

  /** A prefix names the zone, and the rest is the specification. */
  lemma ZonedText(prefix: string, name: string, rest: string, load: string -> Result<Zone>)
    requires (prefix == "TZ=" || prefix == "CRON_TZ=") && ' ' !in name
    ensures var spec := prefix + name + [' '] + rest;
            && ZonePrefix(spec).Some? && ' ' in spec
            && Located(spec, load) ==
               if load(name).Ok? then Ok((load(name).value, TrimSpace([' '] + rest))) else Err
  {
    hide TrimSpace;
    var spec := prefix + name + [' '] + rest;
    var n := |prefix| + |name|;
    assert prefix <= spec;
    assert spec[0] == prefix[0];
    assert ZonePrefix(spec) == Some(|prefix|);
    assert spec[n] == ' ' && spec[..n] == prefix + name;
    IndexFrom(spec, ' ', n);
    assert spec[|prefix|..n] == name && spec[n..] == [' '] + rest;
  }

  /** A text without such a prefix is the specification, in the zone of the caller. */
  lemma UnzonedText(spec: string, load: string -> Result<Zone>)
    requires !("TZ=" <= spec) && !("CRON_TZ=" <= spec)
    ensures Located(spec, load) == Ok((Given, spec))
  {
  }

  // ----- The tables

  predicate AtMidnight(l: int) { HourOf(l) == 0 && MinuteOf(l) == 0 && SecondOf(l) == 0 }

  /** The times that each predefined schedule stands for, by its name. */
  lemma NamedPeriods(name: string, l: int)
    requires DescriptorNamed(name).Some?
    ensures StartsPeriod(DescriptorNamed(name).value, l) <==>
            if name in {"@yearly", "@annually"} then AtMidnight(l) && DayOf(l) == 1 && MonthOf(l) == 1
            else if name == "@monthly" then AtMidnight(l) && DayOf(l) == 1
            else if name == "@weekly" then AtMidnight(l) && WeekdayOf(l) == 0
            else if name in {"@daily", "@midnight"} then AtMidnight(l)
            else name == "@hourly" && MinuteOf(l) == 0 && SecondOf(l) == 0
    ensures forall n :: n in {"@yearly", "@annually", "@monthly", "@weekly", "@daily", "@midnight", "@hourly"} ==>
              DescriptorNamed(n).Some?
  {
    hide SecondOf, MinuteOf, HourOf, DayOf, WeekdayOf, MonthOf;
  }

  /** What follows the name is the duration. */
  lemma EveryText(d: string, zone: Zone, duration: string -> Result<int>, r: Result<Schedule>)
    ensures Understood("@every " + d, zone, duration, r) <==>
            r == if duration(d).Ok? then Ok(Every(duration(d).value)) else Err
  {
    var body := "@every " + d;
    assert body[7..] == d && "@every " <= body;
    assert body[2] == 'v' && body[1] == 'e';
  }

  const MonthNames := ["jan", "feb", "mar", "apr", "may", "jun", "jul", "aug", "sep", "oct", "nov", "dec"]
  const DayNames := ["sun", "mon", "tue", "wed", "thu", "fri", "sat"]

  /** Month names count from 1 and weekday names from 0, in their usual order, and there are no other names. */
  lemma NamesInOrder()
    ensures forall i :: 0 <= i < 12 ==> MonthNames[i] in MONTHS.names && MONTHS.names[MonthNames[i]] == i + 1
    ensures forall i :: 0 <= i < 7 ==> DayNames[i] in DOW.names && DOW.names[DayNames[i]] == i
    ensures (forall name :: name in MONTHS.names ==> name in MonthNames) && forall name :: name in DOW.names ==> name in DayNames
    ensures SECONDS.names == MINUTES.names == HOURS.names == DOM.names == map[]
  {
  }

  /** A plain number is accepted exactly within the bounds. */
  lemma NumberAccepted(n: nat, b: Bounds)
    requires b.max < 63 && b.names == map[]
    ensures ParseRange(Show(n), b).Ok? <==> b.min <= n <= b.max
  {
    hide Show, ParseInt, Split;
    ValueOfShow(n);
    LowerDigits(Show(n));
    NoPunctuation(n);
    SplitNone(Show(n), '/');
    SplitNone(Show(n), '-');
    ParseIntOfShow(n);
  }

  lemma NoPunctuation(n: nat)
    ensures '/' !in Show(n) && '-' !in Show(n) && Show(n) != "*" && Show(n) != "?"
  {
    assert IsDigit(Show(n)[0]);
  }

  lemma ParseIntOfShow(n: nat)
    ensures ParseInt(Show(n)) == if n <= MAX_INT then Ok(n) else Err
  {
    ValueOfShow(n);
    assert IsDigit(Show(n)[0]);
  }

  /** The bounds of the six fields. */
  lemma FieldBounds(n: nat)
    ensures ParseRange(Show(n), SECONDS).Ok? <==> n <= 59
    ensures ParseRange(Show(n), MINUTES).Ok? <==> n <= 59
    ensures ParseRange(Show(n), HOURS).Ok? <==> n <= 23
    ensures ParseRange(Show(n), DOM).Ok? <==> 1 <= n <= 31
    ensures ParseRange(Show(n), MONTHS.(names := map[])).Ok? <==> 1 <= n <= 12
    ensures ParseRange(Show(n), DOW.(names := map[])).Ok? <==> n <= 6
  {
    hide ParseRange, Show;
    NumberAccepted(n, SECONDS);
    NumberAccepted(n, MINUTES);
    NumberAccepted(n, HOURS);
    NumberAccepted(n, DOM);
    NumberAccepted(n, MONTHS.(names := map[]));
    NumberAccepted(n, DOW.(names := map[]));
  }

  lemma StarField(b: Bounds, i: nat)
    requires b.min <= i <= b.max < 63
    ensures Denotes("*", b, i) && HasStar("*", b)
  {
    hide ParseRange, Split;
    OnePart("*");
    assert Spells("*", b, Range(b.min, b.max, 1, true)) by {
      assert WellFormed("*", None, None) && Denoted("*", None, None, b, Range(b.min, b.max, 1, true));
    }
    SpelledIsParsed("*", b, Range(b.min, b.max, 1, true));
    assert PartHas("*", b, i) && PartIsStar("*", b);
    assert "*" in Fields("*", ',');
  }

  lemma OnePart(part: string)
    requires part != "" && ',' !in part
    ensures Fields(part, ',') == [part]
  {
    hide Split;
    SplitNone(part, ',');
    assert NonEmpty([part]) == [part] + NonEmpty([]);
  }

  lemma NumberField(n: nat, b: Bounds, i: nat)
    requires b.min <= n <= b.max < 63 && Show(n) !in b.names
    ensures Denotes(Show(n), b, i) <==> i == n
    ensures !HasStar(Show(n), b)
  {
    hide ParseRange, Split, Show, ParseInt;
    var t, r := Show(n), Range(n, n, 1, false);
    NoPunctuation(n);
    assert ',' !in t by { NoComma(n); }
    OnePart(t);
    LowerDigits(t);
    ParseIntOfShow(n);
    assert t == t + Tail('-', None) + Tail('/', None);
    assert Spells(t, b, r) by { assert WellFormed(t, None, None) && Denoted(t, None, None, b, r); }
    SpelledIsParsed(t, b, r);
    assert PartHas(t, b, i) <==> i == n;
    assert t in Fields(t, ',') && forall part :: part in Fields(t, ',') ==> part == t;
  }

  lemma NoComma(n: nat)
    ensures ',' !in Show(n)
  {
  }

  lemma NotAName(n: nat)
    requires n <= 31
    ensures Show(n) !in MONTHS.names && Show(n) !in DOW.names
  {
    assert |Show(n)| <= 2;
    assert forall name :: name in MONTHS.names || name in DOW.names ==> |name| == 3;
  }

  /** What the fields of a fixed time denote. */
  ghost predicate FixedTo(f: string, b: Bounds, n: nat) {
    !HasStar(f, b) && forall i: nat :: Denotes(f, b, i) <==> i == n
  }

  lemma FixedField(n: nat, b: Bounds)
    requires b.min <= n <= b.max < 63 && Show(n) !in b.names
    ensures FixedTo(Show(n), b, n)
  {
    hide Denotes, HasStar, Show;
    NumberField(n, b, n);
    forall i: nat
      ensures Denotes(Show(n), b, i) <==> i == n
    {
      NumberField(n, b, i);
    }
  }

  /** The seconds at that minute, hour and month. */
  predicate OnTime(m: nat, h: nat, mo: nat, l: int) {
    SecondOf(l) == 0 && MinuteOf(l) == m && HourOf(l) == h && MonthOf(l) == mo
  }

  lemma FixedDescribes(fs: seq<string>, m: nat, h: nat, mo: nat, l: int)
    requires |fs| == 6 && fs[0] == "0" && FixedTo(fs[1], MINUTES, m) && FixedTo(fs[2], HOURS, h) && FixedTo(fs[4], MONTHS, mo)
    ensures var dom, dow := Denotes(fs[3], DOM, DayOf(l)), Denotes(fs[5], DOW, WeekdayOf(l));
            var day := if HasStar(fs[3], DOM) || HasStar(fs[5], DOW) then dom && dow else dom || dow;
            Describes(fs, l) <==> OnTime(m, h, mo, l) && day
  {
    hide Denotes, HasStar, SecondOf, MinuteOf, HourOf, DayOf, WeekdayOf, MonthOf;
    ZeroField(SecondOf(l));
  }

  /**
    Minute, hour, day of month, month and weekday, in this order; a day given both ways matches
    either way, and a day given one way matches that way.
   */
  lemma FixedTimes(m: nat, h: nat, d: nat, mo: nat, w: nat, l: int)
    requires m <= 59 && h <= 23 && 1 <= d <= 31 && 1 <= mo <= 12 && w <= 6
    ensures Describes(["0", Show(m), Show(h), Show(d), Show(mo), "*"], l) <==> OnTime(m, h, mo, l) && DayOf(l) == d
    ensures Describes(["0", Show(m), Show(h), "*", Show(mo), Show(w)], l) <==> OnTime(m, h, mo, l) && WeekdayOf(l) == w
    ensures Describes(["0", Show(m), Show(h), Show(d), Show(mo), Show(w)], l) <==>
              OnTime(m, h, mo, l) && (DayOf(l) == d || WeekdayOf(l) == w)
  {
    hide Denotes, HasStar, Describes, OnTime, DayOf, WeekdayOf, Show;
    NotAName(mo);
    NotAName(w);
    FixedField(m, MINUTES);
    FixedField(h, HOURS);
    FixedField(d, DOM);
    FixedField(mo, MONTHS);
    FixedField(w, DOW);
    StarField(DOM, DayOf(l));
    StarField(DOW, WeekdayOf(l));
    FixedDescribes(["0", Show(m), Show(h), Show(d), Show(mo), "*"], m, h, mo, l);
    FixedDescribes(["0", Show(m), Show(h), "*", Show(mo), Show(w)], m, h, mo, l);
    FixedDescribes(["0", Show(m), Show(h), Show(d), Show(mo), Show(w)], m, h, mo, l);
  }

  /** Signs: a plus is allowed, a minus only before zero. */
  lemma SignedNumbers(n: nat)
    ensures ParseInt("+" + Show(n)) == (if n <= MAX_INT then Ok(n) else Err)
    ensures ParseInt("-" + Show(n)) == (if n == 0 then Ok(0) else Err)
  {
    ValueOfShow(n);
    assert ("+" + Show(n))[1..] == Show(n) && ("-" + Show(n))[1..] == Show(n);
  }

  /** Letters are lowered and other ASCII characters kept; white space is what ASCII knows as such. */
  lemma Characters(c: char)
    requires (c as int) < 128
    ensures Lower(c) as int == if 'A' <= c <= 'Z' then 'a' as int + (c as int - 'A' as int) else c as int
    ensures IsSpace(c) <==> c == ' ' || 9 <= c as int <= 13
  {
  }

  /** Five stars mean every minute. */
  lemma EveryMinute(l: int)
    ensures Describes(["0", "*", "*", "*", "*", "*"], l) <==> SecondOf(l) == 0
  {
    hide Denotes, HasStar, SecondOf, MinuteOf, HourOf, DayOf, WeekdayOf, MonthOf;
    StarField(MINUTES, MinuteOf(l));
    StarField(HOURS, HourOf(l));
    StarField(DOM, DayOf(l));
    StarField(MONTHS, MonthOf(l));
    StarField(DOW, WeekdayOf(l));
    ZeroField(SecondOf(l));
  }

  lemma ZeroField(i: nat)
    ensures Denotes("0", SECONDS, i) <==> i == 0
  {
    hide ParseRange, Split;
    OnePart("0");
    assert ParseRange("0", SECONDS) == Ok(Range(0, 0, 1, false)) by {
      assert Show(0) == "0";
      ReadBack(From(Number(0), None, None), SECONDS);
      assert "0" + "" + "" == "0";
    }
    assert PartHas("0", SECONDS, i) <==> i == 0;
    assert "0" in Fields("0", ',') && forall part :: part in Fields("0", ',') ==> part == "0";
  }
}
