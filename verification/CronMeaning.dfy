/** What texts mean as calendar times, from the characters up: numbers, names, stars, places left out and
    descriptors. Code and meaning share the tables these statements spell out. */
module CronMeaning {
  import opened Options
  import opened Calendar
  import opened CronBits
  import opened CronText
  import opened CronNext
  import opened CronParser
  import CronDelay

  /** A parser with all six places, such as the default one. */
  predicate SixPlaces(p: Parser) {
    p.places == [true, true, true, true, true, true]
  }

  // ----- numbers -----

  function DigitOf(n: nat): char
    requires n < 10
  {
    '0' + n as char
  }

  /** n in decimal notation. */
  function Decimal(n: nat): (x: string)
    ensures x != "" && forall c | c in x :: IsDigit(c)
  {
    if n < 10 then [DigitOf(n)] else Decimal(n / 10) + [DigitOf(n % 10)]
  }

  lemma {:induction false} DecimalValueOf(n: nat)
    ensures DecimalValue(Decimal(n)) == n
  {
    var x := Decimal(n);
    if n < 10 {
      assert x[..0] == "";
    } else {
      DecimalValueOf(n / 10);
      assert x[..|x| - 1] == Decimal(n / 10);
    }
  }

  /** Atoi reads back decimal notation, with an optional sign, as far as a 64-bit int reaches. */
  lemma AtoiDecimal(n: nat)
    ensures Atoi(Decimal(n)) == Atoi("+" + Decimal(n)) == if n < 0x8000_0000_0000_0000 then Some(n) else None
    ensures var negative: int := 0 - n;
            Atoi("-" + Decimal(n)) == if n <= 0x8000_0000_0000_0000 then Some(negative) else None
  {
    hide DecimalValue, Decimal;
    DecimalValueOf(n);
    var x := Decimal(n);
    assert x[0] in x;
    assert ("+" + x)[1..] == x && ("-" + x)[1..] == x;
  }

  /** Least and greatest number of each place: second, minute, hour, day of month, month, day of week. */
  const LEAST := [0, 0, 0, 1, 1, 0]
  const GREATEST := [59, 59, 23, 31, 12, 6]

  lemma LowerDigits(x: string)
    requires forall c | c in x :: IsDigit(c)
    ensures ToLower(x) == x
  {
    assert forall i | 0 <= i < |x| :: x[i] in x;
  }

  lemma NamesHaveLetters(i: nat, x: string)
    requires i < 6 && x in BOUNDS[i].names
    ensures x != "" && !IsDigit(x[0])
  {
  }

  lemma NoName(x: string, i: nat)
    requires i < 6 && x != "" && forall c | c in x :: IsDigit(c)
    ensures ParseIntOrName(x, BOUNDS[i].names) == MustParseInt(x)
  {
    hide ToLower;
    LowerDigits(x);
    assert x[0] in x;
    if x in BOUNDS[i].names {
      NamesHaveLetters(i, x);
    }
  }

  lemma PlainText(x: string)
    requires x != "" && '/' !in x && '-' !in x && x != "*" && x != "?"
    ensures Split(x, '/') == [x] && Split(x, '-') == [x]
  {
    SplitWhole(x, '/');
    SplitWhole(x, '-');
  }

  /** A number is accepted at a place exactly if it is in the range of that place, and stands for itself. */
  lemma NumberMeans(i: nat, n: nat)
    requires i < 6
    ensures Accepted(Decimal(n), BOUNDS[i]) <==> LEAST[i] <= n <= GREATEST[i]
    ensures LEAST[i] <= n <= GREATEST[i] ==> RangeOf(Decimal(n), BOUNDS[i]) == Ok(Range(n, n, 1, false))
  {
    hide Decimal, Atoi, ParseIntOrName, Accepted;
    var x := Decimal(n);
    assert '/' !in x && '-' !in x && '*' !in x && '?' !in x;
    NoName(x, i);
    AtoiDecimal(n);
    PlainText(x);
    RangeOfMeans(x, BOUNDS[i]);
    OnlyNumber(x, BOUNDS[i], n);
  }

  lemma OnlyNumber(x: string, b: Bounds, n: nat)
    requires Split(x, '/') == [x] && Split(x, '-') == [x] && x != "*" && x != "?"
    requires ParseIntOrName(x, b.names) == MustParseInt(x)
    requires Atoi(x) == if n < 0x8000_0000_0000_0000 then Some(n) else None
    requires b.max < 64
    ensures RangeOf(x, b) == Ok(Range(n, n, 1, false)) || (RangeOf(x, b).Err? && !(b.min <= n <= b.max))
    ensures RangeOf(x, b).Ok? ==> b.min <= n <= b.max
  {
    hide Split, Atoi, ParseIntOrName;
  }

  // ----- names and stars -----

  const MONTH_NAMES := ["jan", "feb", "mar", "apr", "may", "jun", "jul", "aug", "sep", "oct", "nov", "dec"]
  const DAY_NAMES := ["sun", "mon", "tue", "wed", "thu", "fri", "sat"]

  lemma NameRange(x: string, b: Bounds, n: nat)
    requires x != "" && '/' !in x && '-' !in x && x != "*" && x != "?"
    requires ToLower(x) in b.names && b.names[ToLower(x)] == n && b.min <= n <= b.max
    ensures RangeOf(x, b) == Ok(Range(n, n, 1, false))
  {
    hide ToLower;
    PlainText(x);
  }

  lemma LettersOnly(x: string, c: char)
    requires c in x && !('A' <= c <= 'Z')
    ensures c in ToLower(x)
  {
    var i :| 0 <= i < |x| && x[i] == c;
    assert ToLower(x)[i] == c;
  }

  lemma NameIsPlain(x: string, name: string)
    requires ToLower(x) == name && |name| == 3 && forall c | c in name :: 'a' <= c <= 'z'
    ensures |x| == 3 && PlainField(x) && x[0] != '@' && '/' !in x && '-' !in x && x != "*" && x != "?"
  {
    assert |ToLower(x)| == |x|;
    forall c | c in x ensures 'A' <= c <= 'Z' || 'a' <= c <= 'z' {
      if !('A' <= c <= 'Z') {
        LettersOnly(x, c);
      }
    }
    assert x[0] in x;
  }

  /** The same letters, each small or capital. */
  predicate SameLetters(x: string, name: string)
    requires forall c | c in name :: 'a' <= c <= 'z'
  {
    |x| == |name| && forall i | 0 <= i < |x| :: x[i] == name[i] || x[i] as int == name[i] as int - 0x20
  }

  lemma SameLettersLower(x: string, name: string)
    requires (forall c | c in name :: 'a' <= c <= 'z') && SameLetters(x, name)
    ensures ToLower(x) == name
  {
    assert forall i | 0 <= i < |name| :: name[i] in name;
  }

  /** The k-th month name, in any letter case, stands for month k; the k-th day name for day k, from Sunday = 0. */
  lemma MonthName(x: string, k: nat)
    requires k < 12 && ToLower(x) == MONTH_NAMES[k]
    ensures RangeOf(x, MONTHS) == Ok(Range(k + 1, k + 1, 1, false))
  {
    hide ToLower, RangeOf;
    NameIsPlain(x, MONTH_NAMES[k]);
    NameRange(x, MONTHS, k + 1);
  }

  lemma DayName(x: string, k: nat)
    requires k < 7 && ToLower(x) == DAY_NAMES[k]
    ensures RangeOf(x, DOW) == Ok(Range(k, k, 1, false))
  {
    hide ToLower, RangeOf;
    NameIsPlain(x, DAY_NAMES[k]);
    NameRange(x, DOW, k);
  }

  /** A lone star or question mark stands for every value of its place. */
  lemma StarMeans(i: nat, x: string)
    requires i < 6 && (x == "*" || x == "?")
    ensures RangeOf(x, BOUNDS[i]) == Ok(Range(LEAST[i], GREATEST[i], 1, true))
  {
    SplitWhole(x, '/');
    SplitWhole(x, '-');
  }

  // ----- spans, steps and lists -----

  /** A span of two numbers, with an optional step: accepted exactly if it is ascending, in range and the step is
      not zero, and then it stands for every step-th value. */
  lemma SpanMeans(i: nat, lo: nat, hi: nat, step: nat)
    requires i < 6 && step < 0x8000_0000_0000_0000
    ensures var span := Decimal(lo) + "-" + Decimal(hi);
            var r := if LEAST[i] <= lo <= hi <= GREATEST[i] then Some(Range(lo, hi, 1, false)) else None;
            && (r.Some? ==> RangeOf(span, BOUNDS[i]) == Ok(r.value))
            && (r.None? ==> RangeOf(span, BOUNDS[i]).Err?)
            && (r.Some? && step > 0 ==> RangeOf(span + "/" + Decimal(step), BOUNDS[i]) == Ok(r.value.(step := step)))
            && (r.None? || step == 0 ==> RangeOf(span + "/" + Decimal(step), BOUNDS[i]).Err?)
  {
    hide Decimal, Atoi, ParseIntOrName, Split, Ends;
    var span := Decimal(lo) + "-" + Decimal(hi);
    EndsOfSpan(i, lo, hi);
    AtoiDecimal(step);
    assert '-' !in Decimal(lo) && '-' !in Decimal(hi) && '/' !in span && '/' !in Decimal(step);
    SplitTwo(Decimal(lo), '-', Decimal(hi));
    SplitTwo(span, '/', Decimal(step));
    SplitWhole(span, '/');
  }

  lemma EndsOfSpan(i: nat, lo: nat, hi: nat)
    requires i < 6
    ensures var ends := Ends([Decimal(lo), Decimal(hi)], BOUNDS[i]);
            ends == Ok(Range(lo, hi, 1, false)) || (ends.Err? && (lo > GREATEST[i] || hi > GREATEST[i]))
  {
    hide Decimal, Atoi, ParseIntOrName;
    NoName(Decimal(lo), i);
    NoName(Decimal(hi), i);
    AtoiDecimal(lo);
    AtoiDecimal(hi);
    assert '*' !in Decimal(lo) && '?' !in Decimal(lo);
  }

  lemma SplitTwo(a: string, sep: char, b: string)
    requires sep !in a && sep !in b
    ensures Split(a + [sep] + b, sep) == [a, b]
  {
    SplitFirst(a, sep, b);
    SplitWhole(b, sep);
  }

  /** A single number with a step counts on from there to the end of the range; a star with a step from its
      beginning. */
  lemma StepMeans(i: nat, lo: nat, step: nat)
    requires i < 6 && step < 0x8000_0000_0000_0000
    ensures var single, star := Decimal(lo) + "/" + Decimal(step), "*/" + Decimal(step);
            && (LEAST[i] <= lo <= GREATEST[i] && step > 0 ==>
                  RangeOf(single, BOUNDS[i]) == Ok(Range(lo, GREATEST[i], step, false)))
            && (!(LEAST[i] <= lo <= GREATEST[i]) || step == 0 ==> RangeOf(single, BOUNDS[i]).Err?)
            && (step > 0 ==> RangeOf(star, BOUNDS[i]) == Ok(Range(LEAST[i], GREATEST[i], step, true)))
            && (step == 0 ==> RangeOf(star, BOUNDS[i]).Err?)
  {
    hide Decimal, Atoi, ParseIntOrName, Split;
    NoName(Decimal(lo), i);
    AtoiDecimal(lo);
    AtoiDecimal(step);
    assert '-' !in Decimal(lo) && '/' !in Decimal(lo) && '/' !in Decimal(step);
    assert '*' !in Decimal(lo) && '?' !in Decimal(lo);
    SplitTwo(Decimal(lo), '/', Decimal(step));
    SplitWhole(Decimal(lo), '-');
    SplitTwo("*", '/', Decimal(step));
    SplitWhole("*", '-');
    assert "*" + ['/'] + Decimal(step) == "*/" + Decimal(step);
  }

  /** A negative step is refused. */
  lemma NegativeStep(i: nat, step: nat)
    requires i < 6 && step > 0
    ensures RangeOf("*/-" + Decimal(step), BOUNDS[i]).Err?
  {
    hide Decimal, Atoi, Split;
    AtoiDecimal(step);
    var x := "-" + Decimal(step);
    SplitTwo("*", '/', x);
    SplitWhole("*", '-');
    assert "*" + ['/'] + x == "*/-" + Decimal(step);
  }

  /** A list means what its parts mean together, and is accepted if all of them are; a part that is empty
      counts for nothing. */
  lemma ListMeans(a: string, b: string, bounds: Bounds, n: nat)
    ensures ItemsOf("") == []
    ensures AllAccepted(ItemsOf(a + "," + b), bounds) <==>
            AllAccepted(ItemsOf(a), bounds) && AllAccepted(ItemsOf(b), bounds)
    ensures SomeDenotes(ItemsOf(a + "," + b), bounds, n) <==>
            SomeDenotes(ItemsOf(a), bounds, n) || SomeDenotes(ItemsOf(b), bounds, n)
    ensures SomeStarred(ItemsOf(a + "," + b)) <==> SomeStarred(ItemsOf(a)) || SomeStarred(ItemsOf(b))
  {
    hide Accepted, Denotes, Starred, Split, NonEmpty;
    SplitConcat(a, ',', b);
    NonEmptyConcat(Split(a, ','), Split(b, ','));
    assert forall x :: x in ItemsOf(a + "," + b) <==> x in ItemsOf(a) || x in ItemsOf(b);
    NoItems();
  }

  lemma NoItems()
    ensures ItemsOf("") == []
  {
  }

  // ----- texts of plain items -----

  /** A field that is one item: not empty, without white space and without a comma. */
  predicate PlainField(x: string) {
    x != "" && ',' !in x && forall c | c in x :: !IsSpace(c)
  }

  ghost predicate PlainFields(xs: seq<string>) {
    xs != [] && xs[0] != "" && xs[0][0] != '@' && forall x | x in xs :: PlainField(x)
  }

  lemma {:induction false} AllNonEmpty(parts: seq<string>)
    requires "" !in parts
    ensures NonEmpty(parts) == parts
  {
    if parts != [] {
      AllNonEmpty(parts[1..]);
      assert parts == [parts[0]] + parts[1..];
    }
  }

  lemma OnlyBlanks(s: string)
    requires forall c | c in s && IsSpace(c) :: c == ' '
    ensures seq(|s|, i requires 0 <= i < |s| => if IsSpace(s[i]) then ' ' else s[i]) == s
  {
  }

  /** Tabs, line ends and the two wide blanks below U+0100 separate fields as a space does. */
  lemma AnyBlankSeparates(s: string, i: nat)
    requires i < |s|
    requires s[i] in ['\t', '\n', '\U{0B}', '\U{0C}', '\r', '\U{85}', '\U{A0}']
    ensures Fields(s[i := ' ']) == Fields(s)
  {
    assert Spaced(s[i := ' ']) == Spaced(s);
  }

  function Spaced(s: string): string {
    seq(|s|, i requires 0 <= i < |s| => if IsSpace(s[i]) then ' ' else s[i])
  }

  lemma {:induction false} JoinedBlanks(xs: seq<string>)
    requires xs != [] && forall x | x in xs :: PlainField(x)
    ensures forall c | c in Join(xs, ' ') && IsSpace(c) :: c == ' '
    ensures xs[0] <= Join(xs, ' ')
  {
    hide IsSpace;
    assert PlainField(xs[0]);
    if |xs| > 1 {
      JoinedBlanks(xs[1..]);
    }
  }

  /** The fields of a text are its pieces, whatever they are. */
  lemma FieldsOf(xs: seq<string>)
    requires PlainFields(xs)
    ensures Fields(Join(xs, ' ')) == xs
    ensures Join(xs, ' ') != "" && Join(xs, ' ')[0] != '@'
  {
    hide Join, Split, NonEmpty;
    forall x | x in xs ensures ' ' !in x {
      assert PlainField(x);
      assert IsSpace(' ');
    }
    SplitJoin(xs, ' ');
    AllNonEmpty(xs);
    JoinedBlanks(xs);
    OnlyBlanks(Join(xs, ' '));
  }

  lemma {:induction false} RankIs(p: Parser, i: nat)
    requires SixPlaces(p) && i <= 6
    ensures Rank(p.places, i) == i
  {
    if i > 0 {
      RankIs(p, i - 1);
    }
  }

  /** The six fields, with the default star for a day of week that is left out. */
  function Filled(xs: seq<string>): seq<string> {
    if |xs| == 5 then xs + ["*"] else xs
  }

  lemma PlaceIs(p: Parser, xs: seq<string>, i: nat)
    requires ValidParser(p) && SixPlaces(p) && PlainFields(xs) && 5 <= |xs| <= 6 && i < 6
    ensures PlaceItems(p, Join(xs, ' '), i) == [Filled(xs)[i]]
  {
    hide Fields, ItemsOf, Join, PeriodOf, Documented;
    FieldsOf(xs);
    RankIs(p, i);
    assert i < |xs| ==> xs[i] in xs && PlainField(xs[i]);
    OneItem(Filled(xs)[i]);
  }

  /** With all places expected there must be six fields, or five if the day of week is optional. */
  lemma FieldCount(p: Parser, xs: seq<string>)
    requires ValidParser(p) && SixPlaces(p) && PlainFields(xs)
    ensures InGrammar(p, Join(xs, ' ')) ==> |xs| == 6 || (|xs| == 5 && p.dowOptional)
  {
    hide Fields, PlaceItems, AllAccepted;
    FieldsOf(xs);
    RankIs(p, 6);
  }

  /** The ranges the fields stand for, if they are all accepted. */
  ghost predicate HaveRanges(xs: seq<string>, rs: seq<Range>) {
    |xs| == |rs| == 6 && forall i: nat | i < 6 :: RangeOf(xs[i], BOUNDS[i]) == Ok(rs[i])
  }

  lemma OneItemMeans(x: string, b: Bounds, r: Range)
    requires RangeOf(x, b) == Ok(r)
    ensures AllAccepted([x], b) && r.step > 0
    ensures forall n: nat :: SomeDenotes([x], b, n) <==> InSteps(r.start, r.end, r.step, n)
    ensures SomeStarred([x]) <==> r.star
  {
    hide RangeOf, Denotes, Accepted, Starred, InSteps;
    RangeOfMeans(x, b);
    OneMoreItem([], x, b);
    assert [] + [x] == [x];
  }

  predicate WithinSteps(r: Range, n: nat) {
    r.step > 0 && InSteps(r.start, r.end, r.step, n)
  }

  /** Place i of the text stands for the range. */
  ghost predicate PlaceHas(p: Parser, spec: string, i: nat, r: Range)
    requires ValidParser(p) && i < 6
  {
    && (forall n: nat :: SomeDenotes(PlaceItems(p, spec, i), BOUNDS[i], n) <==> WithinSteps(r, n))
    && (SomeStarred(PlaceItems(p, spec, i)) <==> r.star)
  }

  /** The seconds six ranges mean: a day matches both day fields if one of them is starred, else either. */
  predicate RangesMatch(rs: seq<Range>, t: Time)
    requires |rs| == 6 && Valid(t)
  {
    var dom, dow := WithinSteps(rs[3], t.day), WithinSteps(rs[5], Weekday(t));
    && WithinSteps(rs[0], t.second) && WithinSteps(rs[1], t.minute) && WithinSteps(rs[2], t.hour)
    && WithinSteps(rs[4], t.month)
    && (if rs[3].star || rs[5].star then dom && dow else dom || dow)
  }

  lemma PlacesMean(p: Parser, spec: string, rs: seq<Range>, t: Time)
    requires ValidParser(p) && |rs| == 6 && Valid(t)
    requires forall i: nat | i < 6 :: PlaceHas(p, spec, i, rs[i])
    ensures TextMatches(p, spec, t) <==> RangesMatch(rs, t)
  {
    hide PlaceItems, SomeDenotes, SomeStarred, Weekday, WithinSteps;
    assert PlaceHas(p, spec, 0, rs[0]) && PlaceHas(p, spec, 1, rs[1]) && PlaceHas(p, spec, 2, rs[2]);
    assert PlaceHas(p, spec, 3, rs[3]) && PlaceHas(p, spec, 4, rs[4]) && PlaceHas(p, spec, 5, rs[5]);
  }

  /** The meaning of a text of plain items, place by place. */
  lemma ItemsMean(p: Parser, xs: seq<string>, rs: seq<Range>, t: Time)
    requires ValidParser(p) && SixPlaces(p) && PlainFields(xs) && Valid(t)
    requires |xs| == 6 || (|xs| == 5 && p.dowOptional)
    requires HaveRanges(Filled(xs), rs)
    ensures InGrammar(p, Join(xs, ' '))
    ensures TextMatches(p, Join(xs, ' '), t) <==> RangesMatch(rs, t)
  {
    hide PlaceItems, RangeOf, SomeDenotes, SomeStarred, AllAccepted, Fields, Join, Filled, InSteps, TextMatches;
    hide RangesMatch;
    FieldsOf(xs);
    RankIs(p, 6);
    forall i: nat | i < 6
      ensures AllAccepted(PlaceItems(p, Join(xs, ' '), i), BOUNDS[i]) && PlaceHas(p, Join(xs, ' '), i, rs[i])
    {
      PlaceIs(p, xs, i);
      OneItemMeans(Filled(xs)[i], BOUNDS[i], rs[i]);
    }
    PlacesMean(p, Join(xs, ' '), rs, t);
  }

  // ----- numbers at all places -----

  lemma DecimalIsPlain(n: nat)
    ensures PlainField(Decimal(n)) && Decimal(n)[0] != '@'
  {
    hide Decimal;
    assert Decimal(n)[0] in Decimal(n);
  }

  function Numbers(ns: seq<nat>): (xs: seq<string>)
    ensures |xs| == |ns| && forall i | 0 <= i < |ns| :: xs[i] == Decimal(ns[i])
  {
    seq(|ns|, i requires 0 <= i < |ns| => Decimal(ns[i]))
  }

  predicate InRange(ns: seq<nat>)
    requires |ns| <= 6
  {
    forall i | 0 <= i < |ns| :: LEAST[i] <= ns[i] <= GREATEST[i]
  }

  /** Six numbers are accepted exactly if each is in the range of its place, and then mean the seconds with
      that second, minute, hour and month, and that day of month or that day of week. */
  lemma NumbersMean(p: Parser, ns: seq<nat>, t: Time)
    requires ValidParser(p) && SixPlaces(p) && |ns| == 6 && Valid(t)
    ensures InGrammar(p, Join(Numbers(ns), ' ')) <==> InRange(ns)
    ensures InRange(ns) ==>
              (TextMatches(p, Join(Numbers(ns), ' '), t) <==>
               && t.second == ns[0] && t.minute == ns[1] && t.hour == ns[2] && t.month == ns[4]
               && (t.day == ns[3] || Weekday(t) == ns[5]))
  {
    hide Decimal, Join, RangeOf, Accepted, Weekday, TextMatches, Fields;
    var xs := Numbers(ns);
    NumbersArePlain(ns);
    forall i: nat | i < 6
      ensures Accepted(xs[i], BOUNDS[i]) <==> LEAST[i] <= ns[i] <= GREATEST[i]
      ensures LEAST[i] <= ns[i] <= GREATEST[i] ==> RangeOf(xs[i], BOUNDS[i]) == Ok(Range(ns[i], ns[i], 1, false))
    {
      NumberMeans(i, ns[i]);
    }
    if InRange(ns) {
      var rs := seq(6, i requires 0 <= i < 6 => Range(ns[i], ns[i], 1, false));
      ItemsMean(p, xs, rs, t);
    } else {
      var i :| 0 <= i < 6 && !(LEAST[i] <= ns[i] <= GREATEST[i]);
      OutOfRange(p, xs, i);
    }
  }

  lemma NumbersArePlain(ns: seq<nat>)
    requires ns != []
    ensures PlainFields(Numbers(ns))
  {
    hide PlainField, Decimal;
    DecimalIsPlain(ns[0]);
    forall x | x in Numbers(ns) ensures PlainField(x) {
      var i :| 0 <= i < |ns| && Numbers(ns)[i] == x;
      DecimalIsPlain(ns[i]);
    }
  }

  lemma OutOfRange(p: Parser, xs: seq<string>, i: nat)
    requires ValidParser(p) && SixPlaces(p) && PlainFields(xs) && |xs| == 6 && i < 6
    requires !Accepted(xs[i], BOUNDS[i])
    ensures !InGrammar(p, Join(xs, ' '))
  {
    hide Fields, Join, PlaceItems, Accepted;
    FieldsOf(xs);
    PlaceIs(p, xs, i);
    assert xs[i] in [xs[i]];
  }

  /** Five numbers, where the day of week is optional, mean the day of month alone. */
  lemma FiveNumbersMean(p: Parser, ns: seq<nat>, t: Time)
    requires ValidParser(p) && SixPlaces(p) && p.dowOptional && |ns| == 5 && InRange(ns) && Valid(t)
    ensures InGrammar(p, Join(Numbers(ns), ' '))
    ensures TextMatches(p, Join(Numbers(ns), ' '), t) <==>
            t.second == ns[0] && t.minute == ns[1] && t.hour == ns[2] && t.day == ns[3] && t.month == ns[4]
  {
    hide Decimal, Join, RangeOf, TextMatches, InGrammar;
    var xs := Numbers(ns);
    NumbersArePlain(ns);
    var rs := seq(5, i requires 0 <= i < 5 => Range(ns[i], ns[i], 1, false)) + [Range(0, 6, 1, true)];
    forall i: nat | i < 6 ensures RangeOf(Filled(xs)[i], BOUNDS[i]) == Ok(rs[i]) {
      if i < 5 {
        NumberMeans(i, ns[i]);
      } else {
        StarMeans(5, "*");
      }
    }
    ItemsMean(p, xs, rs, t);
  }

  lemma MidnightPlaces()
    ensures forall i: nat | i < 3 :: RangeOf("0", BOUNDS[i]) == Ok(Range(0, 0, 1, false))
    ensures RangeOf("1", BOUNDS[3]) == Ok(Range(1, 1, 1, false))
  {
    hide RangeOf, Accepted;
    DigitTexts();
    NumberMeans(0, 0);
    NumberMeans(1, 0);
    NumberMeans(2, 0);
    NumberMeans(3, 1);
  }

  /** A month by its name, in any letter case: midnight of the first of that month. */
  lemma MonthNameMeans(p: Parser, x: string, k: nat, t: Time)
    requires ValidParser(p) && SixPlaces(p) && k < 12 && SameLetters(x, MONTH_NAMES[k]) && Valid(t)
    ensures var text := Join(["0", "0", "0", "1", x, "*"], ' ');
            && InGrammar(p, text)
            && (TextMatches(p, text, t) <==>
                t.month == k + 1 && t.day == 1 && t.hour == 0 && t.minute == 0 && t.second == 0)
  {
    hide RangeOf, Join, TextMatches, InGrammar, ToLower;
    SameLettersLower(x, MONTH_NAMES[k]);
    NameIsPlain(x, MONTH_NAMES[k]);
    MonthName(x, k);
    MidnightPlaces();
    StarMeans(5, "*");
    var zero := Range(0, 0, 1, false);
    ItemsMean(p, ["0", "0", "0", "1", x, "*"],
              [zero, zero, zero, Range(1, 1, 1, false), Range(k + 1, k + 1, 1, false), Range(0, 6, 1, true)], t);
  }

  /** A day of the week by its name, in any letter case: midnight of every such day. */
  lemma DayNameMeans(p: Parser, x: string, k: nat, t: Time)
    requires ValidParser(p) && SixPlaces(p) && k < 7 && SameLetters(x, DAY_NAMES[k]) && Valid(t)
    ensures var text := Join(["0", "0", "0", "*", "*", x], ' ');
            && InGrammar(p, text)
            && (TextMatches(p, text, t) <==> Weekday(t) == k && t.hour == 0 && t.minute == 0 && t.second == 0)
  {
    hide RangeOf, Join, TextMatches, InGrammar, ToLower, Weekday;
    SameLettersLower(x, DAY_NAMES[k]);
    NameIsPlain(x, DAY_NAMES[k]);
    DayName(x, k);
    MidnightPlaces();
    StarMeans(3, "*");
    StarMeans(4, "*");
    var zero := Range(0, 0, 1, false);
    ItemsMean(p, ["0", "0", "0", "*", "*", x],
              [zero, zero, zero, Range(1, 31, 1, true), Range(1, 12, 1, true), Range(k, k, 1, false)], t);
  }

  // ----- places left out -----

  /** A place the parser does not expect, or whose field is missing, means zero for second, minute and hour
      and everything for the others, as if starred. */
  lemma OmittedPlace(p: Parser, spec: string, i: nat, n: nat)
    requires ValidParser(p) && i < 6 && !AsksForDescriptor(p, spec)
    requires !p.places[i] || Rank(p.places, i) >= |Fields(spec)|
    ensures AllAccepted(PlaceItems(p, spec, i), BOUNDS[i])
    ensures SomeDenotes(PlaceItems(p, spec, i), BOUNDS[i], n) <==>
            if i < 3 then n == 0 else LEAST[i] <= n <= GREATEST[i]
    ensures SomeStarred(PlaceItems(p, spec, i)) <==> i >= 3
  {
    hide RangeOf, Fields, Rank, SomeDenotes, SomeStarred, AllAccepted, ItemsOf, Decimal;
    if i < 3 {
      assert DecimalZero() == "0";
      NumberMeans(i, 0);
      OneItem("0");
      OneItemMeans("0", BOUNDS[i], Range(0, 0, 1, false));
    } else {
      StarMeans(i, "*");
      OneItem("*");
      OneItemMeans("*", BOUNDS[i], Range(LEAST[i], GREATEST[i], 1, true));
    }
  }

  function DecimalZero(): (x: string)
    ensures x == Decimal(0)
  {
    "0"
  }

  // ----- descriptors -----

  lemma DigitTexts()
    ensures Decimal(0) == "0" && Decimal(1) == "1"
  {
  }

  /** The ranges of the text documented for a descriptor. */
  function PeriodRanges(k: Period): (rs: seq<Range>)
    ensures |rs| == 6
  {
    var zero, one := Range(0, 0, 1, false), Range(1, 1, 1, false);
    match k
    case Yearly => [zero, zero, zero, one, one, Range(0, 6, 1, true)]
    case Monthly => [zero, zero, zero, one, Range(1, 12, 1, true), Range(0, 6, 1, true)]
    case Weekly => [zero, zero, zero, Range(1, 31, 1, true), Range(1, 12, 1, true), zero]
    case Daily => [zero, zero, zero, Range(1, 31, 1, true), Range(1, 12, 1, true), Range(0, 6, 1, true)]
    case Hourly =>
      [zero, zero, Range(0, 23, 1, true), Range(1, 31, 1, true), Range(1, 12, 1, true), Range(0, 6, 1, true)]
  }

  lemma PeriodRange(k: Period, i: nat)
    requires i < 6
    ensures RangeOf(Documented(k)[i], BOUNDS[i]) == Ok(PeriodRanges(k)[i])
    ensures Documented(k)[i] != "" && ',' !in Documented(k)[i]
  {
    hide RangeOf, Decimal, Accepted;
    DigitTexts();
    StarMeans(i, "*");
    NumberMeans(i, 0);
    NumberMeans(i, 1);
  }

  lemma PeriodPlace(p: Parser, spec: string, k: Period, i: nat)
    requires ValidParser(p) && AsksForDescriptor(p, spec) && PeriodOf(spec) == Some(k) && i < 6
    ensures PlaceHas(p, spec, i, PeriodRanges(k)[i])
  {
    hide RangeOf, SomeDenotes, SomeStarred, AllAccepted, PeriodOf, InSteps, ItemsOf, Documented, PeriodRanges;
    PeriodRange(k, i);
    OneItem(Documented(k)[i]);
    OneItemMeans(Documented(k)[i], BOUNDS[i], PeriodRanges(k)[i]);
  }

  lemma PeriodMeans(p: Parser, spec: string, k: Period, t: Time)
    requires ValidParser(p) && AsksForDescriptor(p, spec) && PeriodOf(spec) == Some(k) && Valid(t)
    ensures InGrammar(p, spec)
    ensures TextMatches(p, spec, t) <==>
            && t.second == 0 && t.minute == 0 && (k != Hourly ==> t.hour == 0)
            && (k == Yearly || k == Monthly ==> t.day == 1) && (k == Yearly ==> t.month == 1)
            && (k == Weekly ==> Weekday(t) == 0)
  {
    hide PeriodOf, PlaceHas, TextMatches, Weekday;
    forall i: nat | i < 6 ensures PlaceHas(p, spec, i, PeriodRanges(k)[i]) {
      PeriodPlace(p, spec, k, i);
    }
    PlacesMean(p, spec, PeriodRanges(k), t);
  }

  /** The descriptors, spelled out: a parser that knows descriptors accepts each of them, and it means midnight
      of 1 January, of the first of a month, of a Sunday, of every day, or the start of every hour. */
  lemma DescriptorsMean(p: Parser, t: Time)
    requires ValidParser(p) && p.descriptors && Valid(t)
    ensures var midnight := t.hour == 0 && t.minute == 0 && t.second == 0;
            && (TextMatches(p, "@yearly", t) <==> midnight && t.month == 1 && t.day == 1)
            && (TextMatches(p, "@annually", t) <==> midnight && t.month == 1 && t.day == 1)
            && (TextMatches(p, "@monthly", t) <==> midnight && t.day == 1)
            && (TextMatches(p, "@weekly", t) <==> midnight && Weekday(t) == 0)
            && (TextMatches(p, "@daily", t) <==> midnight)
            && (TextMatches(p, "@midnight", t) <==> midnight)
            && (TextMatches(p, "@hourly", t) <==> t.minute == 0 && t.second == 0)
    ensures forall d | d in ["@yearly", "@annually", "@monthly", "@weekly", "@daily", "@midnight", "@hourly"] ::
              InGrammar(p, d)
  {
    hide TextMatches, InGrammar, Weekday;
    Periods();
    PeriodMeans(p, "@yearly", Yearly, t);
    PeriodMeans(p, "@annually", Yearly, t);
    PeriodMeans(p, "@monthly", Monthly, t);
    PeriodMeans(p, "@weekly", Weekly, t);
    PeriodMeans(p, "@daily", Daily, t);
    PeriodMeans(p, "@midnight", Daily, t);
    PeriodMeans(p, "@hourly", Hourly, t);
  }

  lemma Differ(a: string, b: string, i: nat)
    requires i < |a| && i < |b| && a[i] != b[i]
    ensures a != b
  {
  }

  lemma Periods()
    ensures PeriodOf("@yearly") == PeriodOf("@annually") == Some(Yearly) && PeriodOf("@monthly") == Some(Monthly)
    ensures PeriodOf("@weekly") == Some(Weekly) && PeriodOf("@daily") == PeriodOf("@midnight") == Some(Daily)
    ensures PeriodOf("@hourly") == Some(Hourly)
  {
    assert |"@yearly"| == |"@weekly"| == |"@hourly"| == 7 && |"@monthly"| == 8 && |"@daily"| == 6;
    assert |"@annually"| == |"@midnight"| == 9;
    Differ("@weekly", "@yearly", 1);
    Differ("@hourly", "@yearly", 1);
    Differ("@hourly", "@weekly", 1);
    Differ("@midnight", "@annually", 1);
  }

  /** A parser that does not know descriptors reads one as a field, of which there are too few. */
  lemma NoDescriptors(p: Parser, d: string)
    requires ValidParser(p) && SixPlaces(p) && !p.descriptors
    requires d in ["@yearly", "@annually", "@monthly", "@weekly", "@daily", "@midnight", "@hourly"]
    ensures !InGrammar(p, d)
  {
    hide Split, PlaceItems, AllAccepted;
    assert ' ' !in d && forall c | c in d :: !IsSpace(c);
    OnlyBlanks(d);
    SplitWhole(d, ' ');
    AllNonEmpty([d]);
    RankIs(p, 6);
  }

  /** `@every ` and a duration gives the delay of that duration. */
  lemma EveryMeans(p: Parser, d: string, parseDuration: DurationFn)
    requires p.descriptors
    ensures GivesDelay(p, "@every " + d, parseDuration) <==> parseDuration(d).Some?
    ensures parseDuration(d).Some? ==>
              DelayOf("@every " + d, parseDuration) == Some(CronDelay.Every(parseDuration(d).value))
  {
    var spec := "@every " + d;
    assert EVERY <= spec && spec[|EVERY|..] == d;
  }
}
