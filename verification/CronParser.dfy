/** The cron expression parser compiles the meaning of its text. */
module CronParser {
  import opened Options
  import opened Calendar
  import opened CronBits
  import opened CronText
  import opened CronNext
  import CronDelay

  datatype Bounds = Bounds(min: nat, max: nat, names: map<string, nat>)

  const SECONDS := Bounds(0, 59, map[])
  const MINUTES := Bounds(0, 59, map[])
  const HOURS := Bounds(0, 23, map[])
  const DOM := Bounds(1, 31, map[])
  const MONTHS := Bounds(1, 12, map["jan" := 1, "feb" := 2, "mar" := 3, "apr" := 4, "may" := 5, "jun" := 6,
                                    "jul" := 7, "aug" := 8, "sep" := 9, "oct" := 10, "nov" := 11, "dec" := 12])
  const DOW := Bounds(0, 6, map["sun" := 0, "mon" := 1, "tue" := 2, "wed" := 3, "thu" := 4, "fri" := 5, "sat" := 6])

  datatype Error = BadNumber | NegativeNumber | TooManyHyphens | TooManySlashes
                 | BelowMinimum | AboveMaximum | BeyondEnd | ZeroStep | EmptySpec | WrongFieldCount
                 | UnknownDescriptor | BadDuration

  datatype Result<+T> = Ok(value: T) | Err(error: Error)

  // ----- getRange -----

  function MustParseInt(expr: string): Result<nat> {
    var num := Atoi(expr);
    if num.None? then Err(BadNumber)
    else if num.value < 0 then Err(NegativeNumber)
    else Ok(num.value)
  }

  function ParseIntOrName(expr: string, names: map<string, nat>): Result<nat> {
    if ToLower(expr) in names then Ok(names[ToLower(expr)]) else MustParseInt(expr)
  }

  /** The numbers getRange arrives at before it asks getBits for the set. */
  datatype Range = Range(start: nat, end: nat, step: nat, star: bool)

  function Ends(lowAndHigh: seq<string>, b: Bounds): Result<Range>
    requires |lowAndHigh| >= 1
  {
    if lowAndHigh[0] == "*" || lowAndHigh[0] == "?" then Ok(Range(b.min, b.max, 1, true))
    else
      var start := ParseIntOrName(lowAndHigh[0], b.names);
      if start.Err? then Err(start.error)
      else if |lowAndHigh| == 1 then Ok(Range(start.value, start.value, 1, false))
      else if |lowAndHigh| == 2 then
        var end := ParseIntOrName(lowAndHigh[1], b.names);
        if end.Err? then Err(end.error) else Ok(Range(start.value, end.value, 1, false))
      else Err(TooManyHyphens)
  }

  function Stepped(rangeAndStep: seq<string>, single: bool, r: Range, b: Bounds): Result<Range>
    requires |rangeAndStep| >= 1
  {
    if |rangeAndStep| == 1 then Ok(r)
    else if |rangeAndStep| == 2 then
      var step := MustParseInt(rangeAndStep[1]);
      if step.Err? then Err(step.error)
      else Ok(r.(step := step.value, end := if single then b.max else r.end))
    else Err(TooManySlashes)
  }

  function Checked(r: Range, b: Bounds): Result<Range> {
    if r.start < b.min then Err(BelowMinimum)
    else if r.end > b.max then Err(AboveMaximum)
    else if r.start > r.end then Err(BeyondEnd)
    else if r.step == 0 then Err(ZeroStep)
    else Ok(r)
  }

  function RangeOf(expr: string, b: Bounds): Result<Range> {
    var rangeAndStep := Split(expr, '/');
    var lowAndHigh := Split(rangeAndStep[0], '-');
    var ends := Ends(lowAndHigh, b);
    if ends.Err? then ends
    else
      var r := Stepped(rangeAndStep, |lowAndHigh| == 1, ends.value, b);
      if r.Err? then r else Checked(r.value, b)
  }

  // ----- what the text means -----

  /** One item of a comma list: `*`, `?`, a value or a span, with an optional step. Behind `*-` and
      `?-` the code reads nothing, so any text may stand there. */
  datatype Base = Any(mark: string, ignored: seq<string>) | Single(v: string) | Span(lo: string, hi: string)
  datatype Item = Item(base: Base, step: Option<string>)

  function BaseParts(e: Base): seq<string> {
    match e
    case Any(mark, ignored) => [mark] + ignored
    case Single(v) => [v]
    case Span(lo, hi) => [lo, hi]
  }

  function ItemParts(e: Item): seq<string> {
    [Join(BaseParts(e.base), '-')] + if e.step.Some? then [e.step.value] else []
  }

  function Show(e: Item): string {
    Join(ItemParts(e), '/')
  }

  /** `e` is a reading of the item text: it is written that way, and its pieces hold no separators. */
  predicate Reads(expr: string, e: Item) {
    && expr == Show(e)
    && (forall x | x in BaseParts(e.base) :: '-' !in x && '/' !in x)
    && (e.step.Some? ==> '/' !in e.step.value)
    && (e.base.Any? ==> e.base.mark == "*" || e.base.mark == "?")
    && (!e.base.Any? ==> BaseParts(e.base)[0] != "*" && BaseParts(e.base)[0] != "?")
  }

  function Value(v: string, b: Bounds): Option<nat> {
    var r := ParseIntOrName(v, b.names);
    if r.Ok? then Some(r.value) else None
  }

  /** The first value, the last value and the step of an item, where it has them. */
  function First(e: Item, b: Bounds): Option<nat> {
    match e.base
    case Any(_, _) => Some(b.min)
    case Single(v) => Value(v, b)
    case Span(lo, _) => Value(lo, b)
  }

  function Last(e: Item, b: Bounds): Option<nat> {
    match e.base
    case Any(_, _) => Some(b.max)
    case Single(v) => if e.step.Some? then Some(b.max) else Value(v, b)
    case Span(_, hi) => Value(hi, b)
  }

  function StepOf(e: Item): Option<nat> {
    if e.step.None? then Some(1)
    else
      var r := MustParseInt(e.step.value);
      if r.Ok? then Some(r.value) else None
  }

  predicate WellFormed(e: Item, b: Bounds) {
    && First(e, b).Some? && Last(e, b).Some? && StepOf(e).Some?
    && b.min <= First(e, b).value <= Last(e, b).value <= b.max
    && StepOf(e).value > 0
  }

  predicate ItemDenotes(e: Item, b: Bounds, i: nat)
    requires WellFormed(e, b)
  {
    InSteps(First(e, b).value, Last(e, b).value, StepOf(e).value, i)
  }

  /** The text of one item is accepted and, read as an item, denotes i. */
  ghost predicate Denotes(expr: string, b: Bounds, i: nat) {
    exists e :: Reads(expr, e) && WellFormed(e, b) && ItemDenotes(e, b, i)
  }

  /** The item text starts with a lone `*` or `?`. */
  predicate Starred(expr: string) {
    && expr != "" && (expr[0] == '*' || expr[0] == '?')
    && (|expr| == 1 || expr[1] == '-' || expr[1] == '/')
  }

  ghost predicate Accepted(expr: string, b: Bounds) {
    exists e :: Reads(expr, e) && WellFormed(e, b)
  }

  // ----- the code computes that meaning -----

  lemma {:induction false} NoSlashInJoin(parts: seq<string>)
    requires |parts| >= 1 && forall x | x in parts :: '/' !in x
    ensures '/' !in Join(parts, '-')
  {
    if |parts| > 1 {
      NoSlashInJoin(parts[1..]);
    }
  }

  /** Splitting an item at `/` and then at `-` gives back the pieces of any reading. */
  lemma ReadingSplits(expr: string, e: Item)
    requires Reads(expr, e)
    ensures Split(expr, '/') == ItemParts(e)
    ensures Split(Split(expr, '/')[0], '-') == BaseParts(e.base)
  {
    NoSlashInJoin(BaseParts(e.base));
    SplitJoin(ItemParts(e), '/');
    SplitJoin(BaseParts(e.base), '-');
  }

  /** Before the step is looked at, the ends are those of the reading without its step. */
  lemma EndsOfReading(expr: string, e: Item, b: Bounds)
    requires Reads(expr, e)
    ensures var plain, r := e.(step := None), Ends(BaseParts(e.base), b);
            && (r.Ok? <==> First(plain, b).Some? && Last(plain, b).Some?)
            && (r.Ok? ==> r.value == Range(First(plain, b).value, Last(plain, b).value, 1, e.base.Any?))
  {
    hide Show, Join, ParseIntOrName;
  }

  /** getRange arrives at the numbers of any reading of its text, and accepts exactly the well-formed. */
  lemma RangeOfReading(expr: string, e: Item, b: Bounds)
    requires Reads(expr, e)
    ensures RangeOf(expr, b).Ok? <==> WellFormed(e, b)
    ensures RangeOf(expr, b).Ok? ==>
              RangeOf(expr, b).value == Range(First(e, b).value, Last(e, b).value, StepOf(e).value, e.base.Any?)
  {
    hide Split, Show, Join, Ends, MustParseInt, ParseIntOrName;
    ReadingSplits(expr, e);
    EndsOfReading(expr, e, b);
    assert |BaseParts(e.base)| == 1 <==> e.base.Single? || (e.base.Any? && e.base.ignored == []);
  }

  /** Every accepted text has a reading. */
  lemma AcceptedHasReading(expr: string, b: Bounds) returns (e: Item)
    requires RangeOf(expr, b).Ok?
    ensures Reads(expr, e)
  {
    var parts := Split(expr, '/');
    var base := Split(parts[0], '-');
    JoinSplit(expr, '/');
    JoinSplit(parts[0], '-');
    var shape := if base[0] == "*" || base[0] == "?" then Any(base[0], base[1..])
                 else if |base| == 1 then Single(base[0]) else Span(base[0], base[1]);
    e := Item(shape, if |parts| == 1 then None else Some(parts[1]));
    assert BaseParts(shape) == base;
    assert ItemParts(e) == parts;
    PiecesHaveNo(base, '-', '/');
  }

  lemma {:induction false} PiecesHaveNo(parts: seq<string>, sep: char, c: char)
    requires |parts| >= 1 && c !in Join(parts, sep)
    ensures forall x | x in parts :: c !in x
  {
    if |parts| > 1 {
      PiecesHaveNo(parts[1..], sep, c);
    }
  }

  lemma ReadingStarts(expr: string, e: Item)
    requires Reads(expr, e)
    ensures var p := BaseParts(e.base)[0];
            p <= expr && (|p| == |expr| || expr[|p|] == '-' || expr[|p|] == '/')
  {
    var p, base := BaseParts(e.base)[0], Join(BaseParts(e.base), '-');
    assert p <= base && (|p| == |base| || base[|p|] == '-');
    assert base <= expr && (|base| == |expr| || expr[|base|] == '/');
  }

  lemma StarText(expr: string, e: Item)
    requires Reads(expr, e)
    ensures e.base.Any? <==> Starred(expr)
  {
    ReadingStarts(expr, e);
    hide Show;
    var p := BaseParts(e.base)[0];
    if |p| >= 2 {
      assert p[1] == expr[1] && p[1] in p;
    }
    if Starred(expr) {
      assert p == [expr[0]];
    }
  }

  /** getRange against the meaning of the text alone: it accepts exactly the texts that have a
      well-formed reading, and its numbers are those every reading has. */
  lemma RangeOfMeans(expr: string, b: Bounds)
    ensures RangeOf(expr, b).Ok? <==> Accepted(expr, b)
    ensures RangeOf(expr, b).Ok? ==>
              var r := RangeOf(expr, b).value;
              && r.step > 0 && r.end <= b.max && (r.star <==> Starred(expr))
              && forall i: nat :: InSteps(r.start, r.end, r.step, i) <==> Denotes(expr, b, i)
  {
    if RangeOf(expr, b).Ok? {
      var e := AcceptedHasReading(expr, b);
      RangeOfReading(expr, e, b);
      StarText(expr, e);
      var r := RangeOf(expr, b).value;
      hide Reads, WellFormed, RangeOf, InSteps, First, Last, StepOf;
      forall i: nat ensures InSteps(r.start, r.end, r.step, i) <==> Denotes(expr, b, i) {
        assert ItemDenotes(e, b, i) == InSteps(r.start, r.end, r.step, i);
        if Denotes(expr, b, i) {
          var e' :| Reads(expr, e') && WellFormed(e', b) && ItemDenotes(e', b, i);
          RangeOfReading(expr, e', b);
        }
      }
    } else if Accepted(expr, b) {
      var e :| Reads(expr, e) && WellFormed(e, b);
      RangeOfReading(expr, e, b);
    }
  }

  // ----- getField -----

  function ItemsOf(field: string): seq<string> {
    NonEmpty(Split(field, ','))
  }

  ghost predicate AllAccepted(items: seq<string>, b: Bounds) {
    forall x | x in items :: Accepted(x, b)
  }

  ghost predicate SomeDenotes(items: seq<string>, b: Bounds, i: nat) {
    exists x :: x in items && Denotes(x, b, i)
  }

  predicate SomeStarred(items: seq<string>) {
    exists x :: x in items && Starred(x)
  }

  lemma OneMoreItem(items: seq<string>, x: string, b: Bounds)
    ensures AllAccepted(items + [x], b) <==> AllAccepted(items, b) && Accepted(x, b)
    ensures forall i: nat :: SomeDenotes(items + [x], b, i) <==> SomeDenotes(items, b, i) || Denotes(x, b, i)
    ensures SomeStarred(items + [x]) <==> SomeStarred(items) || Starred(x)
  {
    hide Accepted, Denotes, Starred;
    assert x in items + [x];
    assert forall y :: y in items + [x] <==> y in items || y == x;
  }

  /** The set holds exactly what the items denote: values in the bits below 63, a star in bit 63. */
  ghost predicate Compiled(bits: bv64, items: seq<string>, b: Bounds) {
    && (forall i: nat | i < 63 :: Bit(bits, i) <==> SomeDenotes(items, b, i))
    && (Bit(bits, 63) <==> SomeStarred(items))
  }

  lemma CompiledNone(b: Bounds)
    ensures Compiled(0, [], b)
  {
    hide Bit;
    forall i: nat ensures !Bit(0, i) {
      BitZero(i);
    }
  }

  lemma CompiledOr(bits: bv64, items: seq<string>, bit: bv64, x: string, b: Bounds)
    requires Compiled(bits, items, b)
    requires forall i: nat | i < 63 :: Bit(bit, i) <==> Denotes(x, b, i)
    requires Bit(bit, 63) <==> Starred(x)
    ensures Compiled(bits | bit, items + [x], b)
  {
    OneMoreItem(items, x, b);
    hide Bit, SomeDenotes, SomeStarred, Denotes, Starred;
    forall i: nat | i < 63 ensures Bit(bits | bit, i) <==> SomeDenotes(items + [x], b, i) {
      BitOr(bits, bit, i);
    }
    BitOr(bits, bit, 63);
  }

  /** What getRange adds to the set: the star bit or nothing. */
  function Extra(star: bool): bv64 {
    if star then STAR_BIT else 0
  }

  lemma ExtraBit(star: bool, i: nat)
    requires i < 64
    ensures Bit(Extra(star), i) <==> star && i == 63
  {
    hide Bit;
    StarBitIsTop();
    BitMask(63, i);
    BitZero(i);
  }

  method GetRange(expr: string, b: Bounds) returns (r: Result<bv64>)
    requires b.max < 63
    ensures r.Ok? <==> Accepted(expr, b)
    ensures r.Ok? ==> forall i: nat | i < 63 :: Bit(r.value, i) <==> Denotes(expr, b, i)
    ensures r.Ok? ==> (Bit(r.value, 63) <==> Starred(expr))
  {
    hide Bit, Extra, RangeOf, Accepted, Denotes, Starred;
    RangeOfMeans(expr, b);
    var range := RangeOf(expr, b);
    if range.Err? {
      return Err(range.error);
    }
    var bits := GetBits(range.value.start, range.value.end, range.value.step);
    assert !InSteps(range.value.start, range.value.end, range.value.step, 63);
    var extra := Extra(range.value.star);
    forall i: nat | i < 64
      ensures Bit(bits | extra, i) <==> Bit(bits, i) || (i == 63 && range.value.star)
    {
      BitOr(bits, extra, i);
      ExtraBit(range.value.star, i);
    }
    return Ok(bits | extra);
  }

  method GetField(field: string, b: Bounds) returns (r: Result<bv64>)
    requires b.max < 63
    ensures r.Ok? <==> AllAccepted(ItemsOf(field), b)
    ensures r.Ok? ==> Compiled(r.value, ItemsOf(field), b)
  {
    hide Bit, Accepted, Denotes, Starred, ItemsOf, Compiled;
    var bits: bv64 := 0;
    var ranges := ItemsOf(field);
    CompiledNone(b);
    assert ranges[..0] == [];
    for k := 0 to |ranges|
      invariant AllAccepted(ranges[..k], b)
      invariant Compiled(bits, ranges[..k], b)
    {
      var bit := GetRange(ranges[k], b);
      if bit.Err? {
        assert ranges[k] in ranges;
        return bit;
      }
      CompiledOr(bits, ranges[..k], bit.value, ranges[k], b);
      OneMoreItem(ranges[..k], ranges[k], b);
      assert ranges[..k + 1] == ranges[..k] + [ranges[k]];
      bits := bits | bit.value;
    }
    assert ranges[..|ranges|] == ranges;
    return Ok(bits);
  }

  // ----- parseDescriptor -----

  datatype Period = Yearly | Monthly | Weekly | Daily | Hourly

  function PeriodOf(d: string): Option<Period> {
    if d == "@yearly" || d == "@annually" then Some(Yearly)
    else if d == "@monthly" then Some(Monthly)
    else if d == "@weekly" then Some(Weekly)
    else if d == "@daily" || d == "@midnight" then Some(Daily)
    else if d == "@hourly" then Some(Hourly)
    else None
  }

  /** The text a descriptor is documented to be equivalent to, place by place. */
  function Documented(k: Period): (texts: seq<string>)
    ensures |texts| == 6
  {
    match k
    case Yearly => ["0", "0", "0", "1", "1", "*"]
    case Monthly => ["0", "0", "0", "1", "*", "*"]
    case Weekly => ["0", "0", "0", "*", "*", "0"]
    case Daily => ["0", "0", "0", "*", "*", "*"]
    case Hourly => ["0", "0", "*", "*", "*", "*"]
  }

  lemma OneItem(x: string)
    requires x != "" && ',' !in x
    ensures ItemsOf(x) == [x]
  {
    SplitWhole(x, ',');
    assert NonEmpty([x]) == [x] + NonEmpty([x][1..]);
  }

  /** A set that holds exactly what one range stands for is the compiled form of the text of that range. */
  lemma CompiledOne(bits: bv64, x: string, b: Bounds, r: Range)
    requires ItemsOf(x) == [x] && RangeOf(x, b) == Ok(r) && r.step > 0
    requires forall i: nat | i < 63 :: Bit(bits, i) <==> InSteps(r.start, r.end, r.step, i)
    requires Bit(bits, 63) <==> r.star
    ensures Compiled(bits, ItemsOf(x), b)
  {
    hide Bit, RangeOf, Denotes, Starred, InSteps, ItemsOf;
    RangeOfMeans(x, b);
    CompiledNone(b);
    OneMoreItem([], x, b);
    assert [] + [x] == [x];
    assert !SomeStarred([]) && forall i: nat :: !SomeDenotes([], b, i);
  }

  /** One of the bounds of Parse. */
  predicate KnownBounds(b: Bounds) {
    b == SECONDS || b == MINUTES || b == HOURS || b == DOM || b == MONTHS || b == DOW
  }

  lemma DigitIsItself(x: string, b: Bounds)
    requires (x == "0" || x == "1") && KnownBounds(b)
    ensures ParseIntOrName(x, b.names) == Ok(if x == "0" then 0 else 1)
  {
    assert |ToLower(x)| == 1;
    assert ToLower(x) !in b.names;
    assert DecimalValue(x[..0]) == 0 && x[0] in x;
    assert DecimalValue(x) == if x == "0" then 0 else 1;
  }

  /** `1 << min` is the compiled form of the least value, written as a number. */
  lemma MinCompiles(b: Bounds)
    requires KnownBounds(b)
    ensures Compiled(Shl(1, b.min), ItemsOf(if b.min == 0 then "0" else "1"), b)
  {
    hide Bit, Shl, ParseIntOrName, ItemsOf, Compiled;
    var x := if b.min == 0 then "0" else "1";
    OneItem(x);
    DigitIsItself(x, b);
    SplitWhole(x, '/');
    SplitWhole(x, '-');
    forall i: nat | i < 64 ensures Bit(Shl(1, b.min), i) <==> InSteps(b.min, b.min, 1, i) {
      BitMask(b.min, i);
    }
    CompiledOne(Shl(1, b.min), x, b, Range(b.min, b.min, 1, false));
  }

  /** What all returns: the values from min to max and the star bit. */
  ghost predicate StarSet(bits: bv64, b: Bounds) {
    Bit(bits, 63) && forall i: nat | i < 63 :: Bit(bits, i) <==> InSteps(b.min, b.max, 1, i)
  }

  /** It is the compiled form of a star. */
  lemma StarSetCompiles(bits: bv64, b: Bounds)
    requires b.min <= b.max && StarSet(bits, b)
    ensures Compiled(bits, ItemsOf("*"), b)
  {
    hide Bit, InSteps, ItemsOf, Compiled, RangeOf;
    OneItem("*");
    RangeOfStar(b);
    CompiledOne(bits, "*", b, Range(b.min, b.max, 1, true));
  }

  lemma StarSetByOr(bits: bv64, extra: bv64, b: Bounds)
    requires StepsBelow(bits, b.min, b.max, 1, 64) && extra == Extra(true)
    ensures StarSet(bits | extra, b)
  {
    hide Bit, Extra, InSteps;
    var r := bits | extra;
    forall i: nat | i < 64 ensures Bit(r, i) <==> Bit(bits, i) || i == 63 {
      BitOr(bits, extra, i);
      ExtraBit(true, i);
    }
    assert Bit(r, 63);
  }

  method All(b: Bounds) returns (bits: bv64)
    requires b.max < 63
    ensures StarSet(bits, b)
  {
    hide StarSet, StepsBelow, Extra;
    bits := GetBits(b.min, b.max, 1);
    StarSetByOr(bits, Extra(true), b);
    bits := bits | Extra(true);
  }

  lemma RangeOfStar(b: Bounds)
    requires b.min <= b.max
    ensures RangeOf("*", b) == Ok(Range(b.min, b.max, 1, true))
  {
    SplitWhole("*", '/');
    SplitWhole("*", '-');
  }

  ghost predicate CompiledAs(s: SpecSchedule, texts: seq<string>)
    requires |texts| == 6
  {
    && Compiled(s.second, ItemsOf(texts[0]), SECONDS) && Compiled(s.minute, ItemsOf(texts[1]), MINUTES)
    && Compiled(s.hour, ItemsOf(texts[2]), HOURS) && Compiled(s.dom, ItemsOf(texts[3]), DOM)
    && Compiled(s.month, ItemsOf(texts[4]), MONTHS) && Compiled(s.dow, ItemsOf(texts[5]), DOW)
  }

  /** Every descriptor at midnight or on the hour, whatever its day fields. */
  lemma DescriptorCompiles(s: SpecSchedule, texts: seq<string>)
    requires |texts| == 6 && texts[0] == "0" && texts[1] == "0"
    requires s.second == Shl(1, SECONDS.min) && s.minute == Shl(1, MINUTES.min)
    requires (texts[2] == "0" && s.hour == Shl(1, HOURS.min)) || (texts[2] == "*" && StarSet(s.hour, HOURS))
    requires (texts[3] == "1" && s.dom == Shl(1, DOM.min)) || (texts[3] == "*" && StarSet(s.dom, DOM))
    requires (texts[4] == "1" && s.month == Shl(1, MONTHS.min)) || (texts[4] == "*" && StarSet(s.month, MONTHS))
    requires (texts[5] == "0" && s.dow == Shl(1, DOW.min)) || (texts[5] == "*" && StarSet(s.dow, DOW))
    ensures CompiledAs(s, texts)
  {
    hide Compiled, ItemsOf, Shl, StarSet;
    MinOrStar(s.second, texts[0], SECONDS);
    MinOrStar(s.minute, texts[1], MINUTES);
    MinOrStar(s.hour, texts[2], HOURS);
    MinOrStar(s.dom, texts[3], DOM);
    MinOrStar(s.month, texts[4], MONTHS);
    MinOrStar(s.dow, texts[5], DOW);
  }

  lemma MinOrStar(bits: bv64, text: string, b: Bounds)
    requires KnownBounds(b)
    requires (text == (if b.min == 0 then "0" else "1") && bits == Shl(1, b.min)) || (text == "*" && StarSet(bits, b))
    ensures Compiled(bits, ItemsOf(text), b)
  {
    hide Compiled, ItemsOf, Shl, StarSet;
    if text == "*" {
      StarSetCompiles(bits, b);
    } else {
      MinCompiles(b);
    }
  }

  /** The schedule parseDescriptor gives for a period is the compiled form of the documented text. */
  method ScheduleOf(k: Period) returns (s: SpecSchedule)
    ensures CompiledAs(s, Documented(k))
  {
    hide CompiledAs, Shl, StarSet;
    var allHours := All(HOURS);
    var allDom := All(DOM);
    var allMonths := All(MONTHS);
    var allDow := All(DOW);
    s := SpecSchedule(Shl(1, SECONDS.min), Shl(1, MINUTES.min), Shl(1, HOURS.min), allDom, allMonths, allDow);
    match k {
      case Yearly => s := s.(dom := Shl(1, DOM.min), month := Shl(1, MONTHS.min));
      case Monthly => s := s.(dom := Shl(1, DOM.min));
      case Weekly => s := s.(dow := Shl(1, DOW.min));
      case Daily =>
      case Hourly => s := s.(hour := allHours);
    }
    DescriptorCompiles(s, Documented(k));
  }

  // ----- Parse -----

  /** Which of the six places a parser expects, and whether the last one may be missing. */
  datatype Parser = Parser(places: seq<bool>, dowOptional: bool, descriptors: bool)

  /** NewParser: asking for an optional day of week asks for a day of week. */
  function NewParser(places: seq<bool>, dowOptional: bool, descriptors: bool): (p: Parser)
    requires |places| == 6
    ensures ValidParser(p) && p.dowOptional == dowOptional && p.descriptors == descriptors
    ensures forall i | 0 <= i < 6 :: p.places[i] <==> places[i] || (i == 5 && dowOptional)
  {
    Parser(if dowOptional then places[5 := true] else places, dowOptional, descriptors)
  }

  predicate ValidParser(p: Parser) {
    |p.places| == 6 && (p.dowOptional ==> p.places[5])
  }

  const DEFAULTS: seq<string> := ["0", "0", "0", "*", "*", "*"]

  /** How many of the first i places are expected. */
  function Rank(places: seq<bool>, i: nat): nat
    requires i <= |places|
  {
    if i == 0 then 0 else Rank(places, i - 1) + if places[i - 1] then 1 else 0
  }

  lemma {:induction false} RankMonotone(places: seq<bool>, i: nat, j: nat)
    requires i <= j <= |places|
    ensures Rank(places, i) <= Rank(places, j)
  {
    if i < j {
      RankMonotone(places, i, j - 1);
    }
  }

  /** The text of place i: the next given field if it is expected and still there, else its default. */
  function PlaceText(p: Parser, fields: seq<string>, i: nat): string
    requires ValidParser(p) && i < 6
  {
    if p.places[i] && Rank(p.places, i) < |fields| then fields[Rank(p.places, i)] else DEFAULTS[i]
  }

  method ExpandFields(fields: seq<string>, p: Parser) returns (exp: seq<string>)
    requires ValidParser(p)
    requires Rank(p.places, 6) - (if p.dowOptional then 1 else 0) <= |fields| <= Rank(p.places, 6)
    ensures |exp| == 6 && forall i: nat | i < 6 :: exp[i] == PlaceText(p, fields, i)
  {
    RankMonotone(p.places, 1, 5);
    var n := 0;
    exp := DEFAULTS;
    var i := 0;
    while i < 6
      invariant i <= 6 && n == Rank(p.places, i) && |exp| == 6
      invariant n < |fields| || i == 0 || i == 6
      invariant forall j: nat | j < i :: exp[j] == PlaceText(p, fields, j)
      invariant forall j: nat | i <= j < 6 :: exp[j] == DEFAULTS[j]
    {
      if p.places[i] {
        exp := exp[i := fields[n]];
        n := n + 1;
      }
      i := i + 1;
      if n == |fields| {
        break;
      }
    }
    forall j: nat | j < 6 ensures exp[j] == PlaceText(p, fields, j) {
      if i <= j {
        RankMonotone(p.places, i, j);
      }
    }
  }

  const BOUNDS: seq<Bounds> := [SECONDS, MINUTES, HOURS, DOM, MONTHS, DOW]

  predicate AsksForDescriptor(p: Parser, spec: string) {
    spec != "" && spec[0] == '@' && p.descriptors
  }

  /** The items the spec stands for at place i: those of the text documented for a descriptor, else those
      it gives, defaults included. */
  function PlaceItems(p: Parser, spec: string, i: nat): seq<string>
    requires ValidParser(p) && i < 6
  {
    ItemsOf(if AsksForDescriptor(p, spec) && PeriodOf(spec).Some? then Documented(PeriodOf(spec).value)[i]
            else PlaceText(p, Fields(spec), i))
  }

  predicate CountFits(p: Parser, count: nat)
    requires ValidParser(p)
  {
    Rank(p.places, 6) - (if p.dowOptional then 1 else 0) <= count <= Rank(p.places, 6)
  }

  /** A documented descriptor, or a non-empty text with the right number of fields, each well-formed. */
  ghost predicate InGrammar(p: Parser, spec: string)
    requires ValidParser(p)
  {
    if AsksForDescriptor(p, spec) then PeriodOf(spec).Some?
    else
      && spec != "" && CountFits(p, |Fields(spec)|)
      && forall i: nat | i < 6 :: AllAccepted(PlaceItems(p, spec, i), BOUNDS[i])
  }

  ghost predicate CompiledSpec(s: SpecSchedule, p: Parser, spec: string)
    requires ValidParser(p)
  {
    && Compiled(s.second, PlaceItems(p, spec, 0), SECONDS)
    && Compiled(s.minute, PlaceItems(p, spec, 1), MINUTES)
    && Compiled(s.hour, PlaceItems(p, spec, 2), HOURS)
    && Compiled(s.dom, PlaceItems(p, spec, 3), DOM)
    && Compiled(s.month, PlaceItems(p, spec, 4), MONTHS)
    && Compiled(s.dow, PlaceItems(p, spec, 5), DOW)
  }

  /** The closure `field` of Parse: it does nothing once an error has been seen. */
  method FieldUnlessFailed(seen: Option<Error>, field: string, b: Bounds) returns (bits: bv64, err: Option<Error>)
    requires b.max < 63
    ensures err.None? <==> seen.None? && AllAccepted(ItemsOf(field), b)
    ensures err.None? ==> Compiled(bits, ItemsOf(field), b)
  {
    if seen.Some? {
      return 0, seen;
    }
    var r := GetField(field, b);
    if r.Err? {
      return 0, Some(r.error);
    }
    return r.value, None;
  }

  /** time.ParseDuration, in nanoseconds; None is its error. */
  type DurationFn = string -> Option<int>

  datatype Schedule = BitSets(spec: SpecSchedule) | Delay(nanoseconds: int)

  const EVERY := "@every "

  /** The delay of `@every` with a duration. */
  function DelayOf(d: string, parseDuration: DurationFn): Option<int> {
    if !(EVERY <= d) then None
    else match parseDuration(d[|EVERY|..])
      case None => None
      case Some(duration) => Some(CronDelay.Every(duration))
  }

  predicate GivesDelay(p: Parser, spec: string, parseDuration: DurationFn) {
    AsksForDescriptor(p, spec) && DelayOf(spec, parseDuration).Some?
  }

  lemma EveryIsNoPeriod(d: string)
    ensures EVERY <= d ==> PeriodOf(d).None?
  {
    if EVERY <= d {
      assert d[2] == 'v' && d[1] == 'e';
    }
  }

  method ParseDescriptor(d: string, parseDuration: DurationFn) returns (r: Result<Schedule>)
    requires EVERY <= d ==> PeriodOf(d).None?
    ensures r.Ok? <==> PeriodOf(d).Some? || DelayOf(d, parseDuration).Some?
    ensures PeriodOf(d).Some? ==> r.value.BitSets? && CompiledAs(r.value.spec, Documented(PeriodOf(d).value))
    ensures DelayOf(d, parseDuration).Some? ==> r.value == Delay(DelayOf(d, parseDuration).value)
  {
    hide PeriodOf, Documented, CompiledAs;
    if PeriodOf(d).Some? {
      var s := ScheduleOf(PeriodOf(d).value);
      return Ok(BitSets(s));
    }
    if !(EVERY <= d) {
      return Err(UnknownDescriptor);
    }
    var duration := parseDuration(d[|EVERY|..]);
    return if duration.None? then Err(BadDuration) else Ok(Delay(CronDelay.Every(duration.value)));
  }

  /** Accepted are the texts of the grammar, which are compiled, and `@every` with a duration, which is
      rounded down to whole seconds. */
  method Parse(p: Parser, spec: string, parseDuration: DurationFn) returns (r: Result<Schedule>)
    requires ValidParser(p)
    ensures r.Ok? <==> InGrammar(p, spec) || GivesDelay(p, spec, parseDuration)
    ensures InGrammar(p, spec) ==> r.value.BitSets? && CompiledSpec(r.value.spec, p, spec)
    ensures GivesDelay(p, spec, parseDuration) ==> r.value == Delay(DelayOf(spec, parseDuration).value)
  {
    hide AllAccepted, Compiled, ItemsOf, Fields, Rank, PeriodOf, Documented;
    if |spec| == 0 {
      return Err(EmptySpec);
    }
    if spec[0] == '@' && p.descriptors {
      EveryIsNoPeriod(spec);
      r := ParseDescriptor(spec, parseDuration);
      return;
    }
    var fields := Fields(spec);
    if !CountFits(p, |fields|) {
      return Err(WrongFieldCount);
    }
    var exp := ExpandFields(fields, p);
    var err: Option<Error> := None;
    var second, minute, hour, dayofmonth, month, dayofweek;
    second, err := FieldUnlessFailed(err, exp[0], SECONDS);
    minute, err := FieldUnlessFailed(err, exp[1], MINUTES);
    hour, err := FieldUnlessFailed(err, exp[2], HOURS);
    dayofmonth, err := FieldUnlessFailed(err, exp[3], DOM);
    month, err := FieldUnlessFailed(err, exp[4], MONTHS);
    dayofweek, err := FieldUnlessFailed(err, exp[5], DOW);
    assert InGrammar(p, spec) <==>
           forall i: nat | i < 6 :: AllAccepted(ItemsOf(exp[i]), BOUNDS[i]);
    if err.Some? {
      return Err(err.value);
    }
    return Ok(BitSets(SpecSchedule(second, minute, hour, dayofmonth, month, dayofweek)));
  }

  // ----- the text as a set of times -----

  ghost predicate TextMatches(p: Parser, spec: string, t: Time)
    requires ValidParser(p) && Valid(t)
  {
    var dom := SomeDenotes(PlaceItems(p, spec, 3), DOM, t.day);
    var dow := SomeDenotes(PlaceItems(p, spec, 5), DOW, Weekday(t));
    && SomeDenotes(PlaceItems(p, spec, 4), MONTHS, t.month)
    && (if SomeStarred(PlaceItems(p, spec, 3)) || SomeStarred(PlaceItems(p, spec, 5)) then dom && dow else dom || dow)
    && SomeDenotes(PlaceItems(p, spec, 2), HOURS, t.hour)
    && SomeDenotes(PlaceItems(p, spec, 1), MINUTES, t.minute)
    && SomeDenotes(PlaceItems(p, spec, 0), SECONDS, t.second)
  }

  lemma StarTest(x: bv64)
    ensures x & STAR_BIT != 0 <==> Bit(x, 63)
  {
    StarBitIsTop();
    assert x & STAR_BIT == STAR_BIT & x;
  }

  lemma CompiledMatches(s: SpecSchedule, p: Parser, spec: string, t: Time)
    requires ValidParser(p) && Valid(t) && CompiledSpec(s, p, spec)
    ensures Matches(s, t) <==> TextMatches(p, spec, t)
  {
    StarTest(s.dom);
    StarTest(s.dow);
    hide Bit, SomeDenotes, SomeStarred, PlaceItems;
  }

  /** u is the least second after t0 that the text means. */
  ghost predicate IsLeastMeant(p: Parser, spec: string, t0: Time, u: Time)
    requires ValidParser(p)
  {
    && Valid(u) && Before(t0, u) && TextMatches(p, spec, u)
    && forall v | Valid(v) && Before(t0, v) && Before(v, u) :: !TextMatches(p, spec, v)
  }

  /** Parse, then Next, in seconds since the epoch: the least second after t0 that the text means, or t0 and
      the delay. */
  method NextOfSpec(p: Parser, spec: string, parseDuration: DurationFn, t0: Time) returns (r: Result<Option<int>>)
    requires ValidParser(p) && Valid(t0)
    ensures r.Ok? <==> InGrammar(p, spec) || GivesDelay(p, spec, parseDuration)
    ensures InGrammar(p, spec) && r.value.Some? ==>
              exists u :: IsLeastMeant(p, spec, t0, u) && Unix(u) == r.value.value && u.year <= AddSecond(t0).year + 5
    ensures InGrammar(p, spec) ==>
              (r.value.None? <==>
               forall v | Valid(v) && Before(t0, v) && v.year <= AddSecond(t0).year + 5 :: !TextMatches(p, spec, v))
    ensures GivesDelay(p, spec, parseDuration) ==>
              r.value == Some(Unix(t0) + DelayOf(spec, parseDuration).value / CronDelay.SECOND)
  {
    hide TextMatches, Matches, CompiledSpec, InGrammar, AddSecond, Unix, DelayOf;
    var schedule := Parse(p, spec, parseDuration);
    if schedule.Err? {
      return Err(schedule.error);
    }
    match schedule.value
    case Delay(nanoseconds) =>
      return Ok(Some(CronDelay.Next(nanoseconds, Unix(t0) * CronDelay.SECOND) / CronDelay.SECOND));
    case BitSets(s) =>
      var next := Next(s, t0);
      forall v | Valid(v) ensures Matches(s, v) <==> TextMatches(p, spec, v) {
        CompiledMatches(s, p, spec, v);
      }
      if next.None? {
        return Ok(None);
      }
      assert IsLeastMeant(p, spec, t0, next.value);
      return Ok(Some(Unix(next.value)));
  }
}
