/** Printing integer sets as lists of intervals, and parsing them. */
module IntSetText {
  import opened Wrappers
  import opened IntSets

  datatype ParseError = NotANumber(text: string) | TooBig(value: int) | TooSmall(value: int)

  // ---------------------------------------------------------------- Java strings and numbers

  predicate Space(c: char) {
    c <= ' '
  }

  function Trim(s: string): string {
    if s == [] then s
    else if Space(s[0]) then Trim(s[1..])
    else if Space(s[|s| - 1]) then Trim(s[..|s| - 1])
    else s
  }

  /** The first index of `c`, or the length of the string where the source has -1. */
  function IndexOf(s: string, c: char): (i: nat)
    ensures i <= |s| && (i < |s| ==> s[i] == c)
    ensures forall k :: 0 <= k < i ==> s[k] != c
  {
    if s == [] || s[0] == c then 0 else 1 + IndexOf(s[1..], c)
  }

  predicate Digit(c: char) {
    '0' <= c <= '9'
  }

  function DigitChar(d: nat): char
    requires d < 10
  {
    ('0' as int + d) as char
  }

  function Value(digits: string): nat {
    if digits == [] then 0
    else 10 * Value(digits[..|digits| - 1]) +
         if Digit(digits[|digits| - 1]) then digits[|digits| - 1] as int - '0' as int else 0
  }

  /** The decimal notation of a number below 100. */
  function Decimal(n: nat): string
    requires n < 100
  {
    if n < 10 then [DigitChar(n)] else [DigitChar(n / 10), DigitChar(n % 10)]
  }

  /** Integer.parseInt on ASCII text: an optional sign and at least one digit, within 32 bits. */
  function ParseInt(s: string): Result<int, ParseError> {
    var negative := s != [] && s[0] == '-';
    var digits := if s != [] && (s[0] == '-' || s[0] == '+') then s[1..] else s;
    if digits == [] || exists i :: 0 <= i < |digits| && !Digit(digits[i]) then Err(NotANumber(s))
    else
      var value: int := if negative then -(Value(digits) as int) else Value(digits);
      if -0x8000_0000 <= value < 0x8000_0000 then Ok(value) else Err(NotANumber(s))
  }

  // ---------------------------------------------------------------- parsing

  function ParseValue(part: string): (r: Result<nat, ParseError>)
    ensures r.Ok? ==> r.value <= 31
  {
    match ParseInt(part)
    case Err(e) => Err(e)
    case Ok(value) => if value > 31 then Err(TooBig(value)) else if value < 0 then Err(TooSmall(value)) else Ok(value)
  }

  /** The bits from `start` to `end`. */
  function Interval(start: nat, end: int): nat
    decreases end
  {
    if end < start then 0 else Or(Interval(start, end - 1), Bit(end))
  }

  function PartMask(part: string): Result<nat, ParseError> {
    if part == [] then Ok(0)
    else
      var hyphen := IndexOf(part, '-');
      if hyphen == |part| then
        match ParseValue(part) { case Ok(v) => Ok(Bit(v)) case Err(e) => Err(e) }
      else
        match ParseValue(Trim(part[..hyphen]))
        case Err(e) => Err(e)
        case Ok(start) =>
          match ParseValue(Trim(part[hyphen + 1..]))
          case Err(e) => Err(e)
          case Ok(end) => Ok(Interval(start, end))
  }

  /** The union of the parts of a comma-separated list; the first bad part is the error. */
  function ListMask(list: string): Result<nat, ParseError>
    decreases |list|
  {
    var comma := IndexOf(list, ',');
    match PartMask(Trim(list[..comma]))
    case Err(e) => Err(e)
    case Ok(mask) =>
      if comma == |list| then Ok(mask)
      else match ListMask(list[comma + 1..]) { case Ok(rest) => Ok(Or(mask, rest)) case Err(e) => Err(e) }
  }

  function Parse(s: string): Result<IntSet, ParseError> {
    var t := Trim(s);
    if t == "" then Ok(EMPTY)
    else if t == "*" then Ok(FULL)
    else if t == "-" then Ok(EMPTY)
    else
      match ListMask(t)
      case Ok(mask) => ListMaskBound(t); Ok(ByMask(mask))
      case Err(e) => Err(e)
  }

  lemma {:induction false} IntervalBound(start: nat, end: int)
    requires end <= 31
    ensures Interval(start, end) < Bit(32)
    decreases end
  {
    Bits32();
    if end >= start {
      IntervalBound(start, end - 1);
      BitMonotone(end, 32);
      OrBound(Interval(start, end - 1), Bit(end), 32);
    }
  }

  lemma PartMaskBound(part: string)
    ensures PartMask(part).Ok? ==> PartMask(part).value < Bit(32)
  {
    Bits32();
    if PartMask(part).Ok? && part != [] {
      var hyphen := IndexOf(part, '-');
      if hyphen == |part| {
        BitMonotone(ParseValue(part).value, 32);
      } else {
        IntervalBound(ParseValue(Trim(part[..hyphen])).value, ParseValue(Trim(part[hyphen + 1..])).value);
      }
    }
  }

  lemma {:induction false} ListMaskBound(list: string)
    ensures ListMask(list).Ok? ==> ListMask(list).value < Bit(32) == 0x1_0000_0000
    decreases |list|
  {
    Bits32();
    var comma := IndexOf(list, ',');
    PartMaskBound(Trim(list[..comma]));
    if comma < |list| && ListMask(list).Ok? {
      ListMaskBound(list[comma + 1..]);
      OrBound(PartMask(Trim(list[..comma])).value, ListMask(list[comma + 1..]).value, 32);
    }
  }

  lemma IntervalStep(start: nat, end: int)
    ensures Interval(start, end) == if end < start then 0 else Or(Interval(start, end - 1), Bit(end))
  {
  }

  /** The loop over the bits of an interval. */
  method ParsePart(part: string) returns (r: Result<nat, ParseError>)
    ensures r == PartMask(part)
  {
    hide Trim, IndexOf, ParseValue, Or, Bit, Interval;
    if part == [] {
      return Ok(0);
    }
    var hyphen := IndexOf(part, '-');
    if hyphen == |part| {
      var value := ParseValue(part);
      return if value.Ok? then Ok(Bit(value.value)) else Err(value.error);
    }
    var start := ParseValue(Trim(part[..hyphen]));
    if start.Err? {
      return Err(start.error);
    }
    var end := ParseValue(Trim(part[hyphen + 1..]));
    if end.Err? {
      return Err(end.error);
    }
    var mask: nat, i: int := 0, start.value;
    IntervalStep(start.value, i - 1);
    while i <= end.value
      invariant start.value <= i && (i <= end.value + 1 || i == start.value)
      invariant mask == Interval(start.value, i - 1)
    {
      IntervalStep(start.value, i);
      mask := Or(mask, Bit(i));
      i := i + 1;
    }
    if end.value < start.value {
      IntervalStep(start.value, end.value);
    }
    return Ok(mask);
  }

  /** The loop over the commas, combining the masks of the parts from the left. */
  method ParseIntSet(s: string) returns (r: Result<IntSet, ParseError>)
    ensures r == Parse(s)
  {
    var t := Trim(s);
    if t == "" {
      return Ok(EMPTY);
    }
    if t == "*" {
      return Ok(FULL);
    }
    if t == "-" {
      return Ok(EMPTY);
    }
    ListMaskBound(t);
    var mask: nat, rest := 0, t;
    JoinedZero(ListMask(t));
    while true
      invariant ListMask(t) == Joined(mask, ListMask(rest))
      decreases |rest|
    {
      var comma := IndexOf(rest, ',');
      var part := ParsePart(Trim(rest[..comma]));
      JoinStep(rest, mask);
      if part.Err? {
        return Err(part.error);
      }
      mask := Or(mask, part.value);
      if comma == |rest| {
        break;
      }
      rest := rest[comma + 1..];
    }
    return Ok(ByMask(mask));
  }

  /** Taking the first part off what is left of a list. */
  lemma JoinStep(rest: string, mask: nat)
    ensures var comma := IndexOf(rest, ',');
            var part := PartMask(Trim(rest[..comma]));
            Joined(mask, ListMask(rest)) ==
              if part.Err? then Err(part.error)
              else if comma == |rest| then Ok(Or(mask, part.value))
              else Joined(Or(mask, part.value), ListMask(rest[comma + 1..]))
  {
    hide Trim, IndexOf, Or, PartMask;
    var comma := IndexOf(rest, ',');
    var part := PartMask(Trim(rest[..comma]));
    if part.Ok? && comma < |rest| && ListMask(rest[comma + 1..]).Ok? {
      OrAssociative(mask, part.value, ListMask(rest[comma + 1..]).value);
    }
  }

  lemma JoinedZero(r: Result<nat, ParseError>)
    ensures Joined(0, r) == r
  {
    if r.Ok? {
      OrAssociative(r.value, 0, 0);
    }
  }

  function Joined(mask: nat, rest: Result<nat, ParseError>): Result<nat, ParseError> {
    match rest
    case Ok(m) => Ok(Or(mask, m))
    case Err(e) => Err(e)
  }

  lemma {:induction false} OrAssociative(a: nat, b: nat, c: nat)
    ensures Or(Or(a, b), c) == Or(a, Or(b, c))
    ensures Or(0, a) == a == Or(a, 0)
  {
    if a != 0 || b != 0 || c != 0 {
      OrAssociative(a / 2, b / 2, c / 2);
    }
  }

  // ---------------------------------------------------------------- printing

  datatype Run = Run(first: nat, last: nat)

  /** The intervals of members from `i` up to 30, when one starting at `first` is open (if any). */
  function RunsFrom(mask: nat, i: nat, first: Option<nat>): seq<Run>
    requires i <= 31 && (first.Some? ==> first.value < i)
    decreases 31 - i
  {
    if i == 31 then if first.Some? then [Run(first.value, 30)] else []
    else if Has(mask, i) then RunsFrom(mask, i + 1, if first.Some? then first else Some(i))
    else (if first.Some? then [Run(first.value, i - 1)] else []) + RunsFrom(mask, i + 1, None)
  }

  function RunText(run: Run): string
    requires run.first < 100 && run.last < 100
  {
    Decimal(run.first) + if run.first == run.last then "" else "-" + Decimal(run.last)
  }

  /** Nonempty intervals within `from`..30, in order and with a gap between neighbours. */
  predicate Separate(runs: seq<Run>, from: nat) {
    runs == [] || (from <= runs[0].first <= runs[0].last <= 30 && Separate(runs[1..], runs[0].last + 2))
  }

  predicate Covered(runs: seq<Run>, v: nat) {
    runs != [] && (runs[0].first <= v <= runs[0].last || Covered(runs[1..], v))
  }

  function ListText(runs: seq<Run>, from: nat): string
    requires Separate(runs, from)
  {
    if runs == [] then ""
    else if |runs| == 1 then RunText(runs[0])
    else RunText(runs[0]) + "," + ListText(runs[1..], runs[0].last + 2)
  }

  /** The runs hold the members from `i` to 30 together with those of the open interval, and no two
      of them could be joined. */
  lemma {:induction false} RunsAreIntervals(mask: nat, i: nat, first: Option<nat>)
    requires i <= 31 && (first.Some? ==> first.value < i)
    ensures Separate(RunsFrom(mask, i, first), if first.Some? then first.value else i)
    ensures forall v: nat :: v <= 30 ==>
              (Covered(RunsFrom(mask, i, first), v)
               <==> (i <= v && Has(mask, v)) || (first.Some? && first.value <= v < i))
    decreases 31 - i
  {
    if i == 31 {
    } else if Has(mask, i) {
      RunsAreIntervals(mask, i + 1, if first.Some? then first else Some(i));
    } else {
      var rest := RunsFrom(mask, i + 1, None);
      RunsAreIntervals(mask, i + 1, None);
      SeparateFrom(rest, i + 1, i);
      if first.Some? {
        assert ([Run(first.value, i - 1)] + rest)[1..] == rest;
      } else {
        assert [] + rest == rest;
      }
    }
  }

  lemma SeparateFrom(runs: seq<Run>, from: nat, lower: nat)
    requires Separate(runs, from) && lower <= from
    ensures Separate(runs, lower)
  {
  }

  function RunsOf(mask: nat): (runs: seq<Run>)
    ensures Separate(runs, 0)
    ensures forall v: nat :: v <= 30 ==> (Covered(runs, v) <==> Has(mask, v))
  {
    RunsAreIntervals(mask, 0, None);
    RunsFrom(mask, 0, None)
  }

  function Print(s: IntSet): string {
    if s.full then "*" else if s.mask == 0 then "-" else ListText(RunsOf(s.mask), 0)
  }

  /** What is printed when `runs` are still to be appended to `out`. */
  function Appended(out: string, runs: seq<Run>, from: nat): string
    requires Separate(runs, from)
  {
    if runs == [] then out else Extended(out, ListText(runs, from))
  }

  function Extended(out: string, text: string): string {
    if out == "" then text else out + "," + text
  }

  method AppendValues(out: string, first: nat, last: nat) returns (longer: string)
    requires first <= last <= 30
    ensures longer == Extended(out, RunText(Run(first, last)))
  {
    longer := out;
    if longer != "" {
      longer := longer + ",";
    }
    longer := longer + Decimal(first);
    if last != first {
      longer := longer + "-" + Decimal(last);
    }
  }

  lemma AppendedNext(out: string, run: Run, rest: seq<Run>, from: nat)
    requires from <= run.first <= run.last <= 30 && Separate(rest, run.last + 2)
    ensures var longer := Extended(out, RunText(run));
            && longer != ""
            && Separate([run] + rest, from)
            && Appended(longer, rest, run.last + 2) == Appended(out, [run] + rest, from)
  {
    ListTextCons(run, rest, from);
    ExtendedTwice(out, RunText(run), ListText(rest, run.last + 2));
    hide RunText, ListText, Extended;
  }

  lemma ExtendedTwice(out: string, text: string, tail: string)
    requires text != ""
    ensures Extended(Extended(out, text), tail) == Extended(out, text + "," + tail)
    ensures Extended(out, text) != ""
  {
    if out != "" {
      assert (out + "," + text) + "," + tail == out + "," + (text + "," + tail);
    }
  }

  lemma ListTextCons(run: Run, rest: seq<Run>, from: nat)
    requires from <= run.first <= run.last <= 30 && Separate(rest, run.last + 2)
    ensures RunText(run) != "" && Separate([run] + rest, from)
    ensures ListText([run] + rest, from)
         == if rest == [] then RunText(run) else RunText(run) + "," + ListText(rest, run.last + 2)
  {
    assert ([run] + rest)[1..] == rest;
  }

  lemma {:induction false} NoMoreRuns(mask: nat, i: nat, first: Option<nat>)
    requires i <= 31 && (first.Some? ==> first.value < i)
    requires forall k: nat :: i <= k <= 30 ==> !Has(mask, k)
    ensures RunsFrom(mask, i, first) == if first.Some? then [Run(first.value, i - 1)] else []
    decreases 31 - i
  {
    if i < 31 {
      NoMoreRuns(mask, i + 1, None);
    }
  }

  /** The open interval of the loop below: `first` is negative when there is none. */
  function Open(first: int): Option<nat> {
    if first < 0 then None else Some(first)
  }

  ghost function Printed(mask: nat, out: string, i: nat, first: int): string
    requires i <= 31 && first < i
  {
    RunsAreIntervals(mask, i, Open(first));
    Appended(out, RunsFrom(mask, i, Open(first)), if first < 0 then i else first)
  }

  /** The loop over the bits below 31, which stops early when no bits are left. */
  method ToString(s: IntSet) returns (out: string)
    ensures out == Print(s)
  {
    if s.full {
      return "*";
    }
    if s.mask == 0 {
      return "-";
    }
    var mask: nat := s.mask;
    out := "";
    var first, last := -1, -1;
    var i := 0;
    while i < 31
      invariant 0 <= i <= 31 && -1 <= first < i && (first >= 0 ==> last == i - 1)
      invariant Shifted(mask, s.mask, i)
      invariant Printed(s.mask, out, i, first) == Print(s)
    {
      ShiftedOnce(mask, s.mask, i);
      out, first, last := AddBit(mask % 2 == 1, out, i, first, last, s.mask);
      mask := mask / 2;
      i := i + 1;
      if mask == 0 {
        break;
      }
    }
    PrintedAtEnd(s.mask, out, i, first, mask);
    if first >= 0 {
      out := AppendValues(out, first, last);
    }
  }

  /** `mask` is what is left of `whole` after `i` shifts. */
  ghost predicate Shifted(mask: nat, whole: nat, i: nat) {
    forall k: nat :: Has(whole, i + k) <==> Has(mask, k)
  }

  method AddBit(isSet: bool, out: string, i: nat, first: int, last: int, ghost mask: nat)
    returns (newOut: string, newFirst: int, newLast: int)
    requires i < 31 && -1 <= first < i && (first >= 0 ==> last == i - 1) && isSet == Has(mask, i)
    ensures -1 <= newFirst < i + 1 && (newFirst >= 0 ==> newLast == i)
    ensures Printed(mask, newOut, i + 1, newFirst) == Printed(mask, out, i, first)
  {
    newOut, newFirst, newLast := out, first, last;
    if !isSet {
      if first >= 0 {
        AppendedRun(mask, out, i, first);
        newOut := AppendValues(out, first, last);
        newFirst := -1;
      } else {
        SkippedBit(mask, out, i);
      }
    } else {
      ContinuedRun(mask, out, i, first);
      if first < 0 {
        newFirst := i;
      }
      newLast := i;
    }
  }

  lemma AppendedRun(mask: nat, out: string, i: nat, first: nat)
    requires i < 31 && first < i && !Has(mask, i)
    ensures Printed(mask, Extended(out, RunText(Run(first, i - 1))), i + 1, -1)
         == Printed(mask, out, i, first)
  {
    var rest := RunsFrom(mask, i + 1, None);
    RunsAreIntervals(mask, i + 1, None);
    AppendedNext(out, Run(first, i - 1), rest, first);
  }

  lemma SkippedBit(mask: nat, out: string, i: nat)
    requires i < 31 && !Has(mask, i)
    ensures Printed(mask, out, i + 1, -1) == Printed(mask, out, i, -1)
  {
    var rest := RunsFrom(mask, i + 1, None);
    assert [] + rest == rest;
  }

  lemma ContinuedRun(mask: nat, out: string, i: nat, first: int)
    requires i < 31 && first < i && Has(mask, i)
    ensures Printed(mask, out, i + 1, if first < 0 then i else first) == Printed(mask, out, i, first)
  {
  }

  lemma ShiftedOnce(mask: nat, whole: nat, i: nat)
    requires Shifted(mask, whole, i)
    ensures Has(whole, i) <==> mask % 2 == 1
    ensures Shifted(mask / 2, whole, i + 1)
  {
    assert Has(whole, i + 0) <==> Has(mask, 0);
    forall k: nat
      ensures Has(whole, i + 1 + k) <==> Has(mask / 2, k)
    {
      assert Has(whole, i + (k + 1)) <==> Has(mask, k + 1);
    }
  }

  lemma PrintedAtEnd(mask: nat, out: string, i: nat, first: int, left: nat)
    requires i <= 31 && first < i && (i == 31 || left == 0) && Shifted(left, mask, i)
    ensures Printed(mask, out, i, first)
         == if first < 0 then out else Extended(out, RunText(Run(first, i - 1)))
  {
    forall k: nat | i <= k <= 30
      ensures !Has(mask, k)
    {
      HasNone(k - i);
      assert Has(mask, i + (k - i)) <==> Has(left, k - i);
    }
    NoMoreRuns(mask, i, Open(first));
    if first >= 0 {
      AppendedNext(out, Run(first, i - 1), [], first);
    }
  }

  // ---------------------------------------------------------------- parsing what was printed

  predicate Plain(s: string) {
    forall i :: 0 <= i < |s| ==> Digit(s[i])
  }

  lemma DecimalParses(n: nat)
    requires n <= 31
    ensures Plain(Decimal(n)) && ParseValue(Decimal(n)) == Ok(n)
  {
    var d := Decimal(n);
    if n < 10 {
      assert d[..0] == [];
      assert Value(d) == n;
    } else {
      assert d[..1] == [DigitChar(n / 10)];
      assert d[..1][..0] == [];
      assert Value(d[..1]) == n / 10;
      assert d[1] == DigitChar(n % 10);
    }
  }

  lemma IndexOfJoined(a: string, c: char, b: string)
    requires forall i :: 0 <= i < |a| ==> a[i] != c
    ensures IndexOf(a + [c] + b, c) == |a| && IndexOf(a, c) == |a|
    ensures (a + [c] + b)[..|a|] == a && (a + [c] + b)[|a| + 1..] == b
  {
    assert (a + [c] + b)[|a|] == c;
    assert forall i :: 0 <= i < |a| ==> (a + [c] + b)[i] == a[i];
  }

  lemma RunParses(run: Run)
    requires run.first <= run.last <= 30
    ensures var t := RunText(run);
            && LooksLikeRun(t)
            && PartMask(t) == Ok(Interval(run.first, run.last))
  {
    DecimalParses(run.first);
    DecimalParses(run.last);
    var a, b := Decimal(run.first), Decimal(run.last);
    assert RunText(run) == if run.first == run.last then a else a + ['-'] + b;
    DigitsOfRun(a, b);
    hide RunText, Decimal, ParseValue, PartMask, Interval, Digit, Plain;
    if run.first == run.last {
      SingleParses(a, run.first);
    } else {
      PairParses(a, b, run.first, run.last);
    }
  }

  ghost predicate LooksLikeRun(t: string) {
    && t != [] && Digit(t[0]) && Digit(t[|t| - 1])
    && (forall i :: 0 <= i < |t| ==> Digit(t[i]) || t[i] == '-')
  }

  lemma DigitsOfRun(a: string, b: string)
    requires a != [] && b != [] && Plain(a) && Plain(b)
    ensures LooksLikeRun(a) && LooksLikeRun(a + ['-'] + b)
  {
  }

  lemma SingleParses(a: string, value: nat)
    requires a != [] && Plain(a) && ParseValue(a) == Ok(value)
    ensures PartMask(a) == Ok(Interval(value, value))
  {
    assert Interval(value, value - 1) == 0;
    OrAssociative(Bit(value), 0, 0);
  }

  lemma PairParses(a: string, b: string, first: nat, last: nat)
    requires a != [] && b != [] && Plain(a) && Plain(b)
    requires ParseValue(a) == Ok(first) && ParseValue(b) == Ok(last)
    ensures PartMask(a + ['-'] + b) == Ok(Interval(first, last))
  {
    IndexOfJoined(a, '-', b);
    assert Trim(a) == a && Trim(b) == b;
  }

  /** The union of the bits of the runs. */
  function RunsMask(runs: seq<Run>): nat {
    if runs == [] then 0 else Or(Interval(runs[0].first, runs[0].last), RunsMask(runs[1..]))
  }

  lemma {:induction false} ListParses(runs: seq<Run>, from: nat)
    requires Separate(runs, from) && runs != []
    ensures var t := ListText(runs, from);
            t != [] && Digit(t[0]) && Digit(t[|t| - 1]) && ListMask(t) == Ok(RunsMask(runs))
  {
    hide ListText, ListMask, RunsMask, Digit;
    if |runs| == 1 {
      LastRunParses(runs, from);
    } else {
      ListParses(runs[1..], runs[0].last + 2);
      NextRunParses(runs, from);
    }
  }

  lemma LastRunParses(runs: seq<Run>, from: nat)
    requires Separate(runs, from) && |runs| == 1
    ensures var t := ListText(runs, from);
            t != [] && Digit(t[0]) && Digit(t[|t| - 1]) && ListMask(t) == Ok(RunsMask(runs))
  {
    var p := RunText(runs[0]);
    RunParses(runs[0]);
    DigitsAreTrimmed(p);
    hide RunText, ListMask, PartMask, Trim, IndexOf, Digit;
    SinglePart(p);
    OrAssociative(Interval(runs[0].first, runs[0].last), 0, 0);
  }

  lemma NextRunParses(runs: seq<Run>, from: nat)
    requires Separate(runs, from) && |runs| > 1
    requires var rest := ListText(runs[1..], runs[0].last + 2);
             rest != [] && Digit(rest[|rest| - 1]) && ListMask(rest) == Ok(RunsMask(runs[1..]))
    ensures var t := ListText(runs, from);
            t != [] && Digit(t[0]) && Digit(t[|t| - 1]) && ListMask(t) == Ok(RunsMask(runs))
  {
    var p, rest := RunText(runs[0]), ListText(runs[1..], runs[0].last + 2);
    assert ListText(runs, from) == p + [','] + rest;
    RunParses(runs[0]);
    DigitsAreTrimmed(p);
    hide ListText, RunText, ListMask, PartMask, Trim, IndexOf;
    FirstPart(p, rest);
  }

  lemma DigitsAreTrimmed(p: string)
    requires p != [] && Digit(p[0]) && Digit(p[|p| - 1])
    ensures Trim(p) == p
  {
  }

  lemma FirstPart(p: string, rest: string)
    requires forall i :: 0 <= i < |p| ==> p[i] != ','
    requires Trim(p) == p && PartMask(p).Ok?
    ensures ListMask(p + [','] + rest) == Joined(PartMask(p).value, ListMask(rest))
  {
    IndexOfJoined(p, ',', rest);
  }

  lemma SinglePart(p: string)
    requires forall i :: 0 <= i < |p| ==> p[i] != ','
    requires Trim(p) == p
    ensures ListMask(p) == PartMask(p)
  {
    assert IndexOf(p, ',') == |p|;
    assert p[..|p|] == p;
  }

  lemma {:induction false} HasInterval(start: nat, end: int, v: nat)
    ensures Has(Interval(start, end), v) <==> start <= v <= end
    decreases end
  {
    if end < start {
      HasNone(v);
    } else {
      HasInterval(start, end - 1, v);
      HasBit(end, v);
      HasOr(Interval(start, end - 1), Bit(end), v);
    }
  }

  lemma {:induction false} HasRuns(runs: seq<Run>, from: nat, v: nat)
    requires Separate(runs, from)
    ensures Has(RunsMask(runs), v) <==> Covered(runs, v)
    ensures v > 30 ==> !Covered(runs, v)
  {
    if runs == [] {
      HasNone(v);
    } else {
      HasRuns(runs[1..], runs[0].last + 2, v);
      HasInterval(runs[0].first, runs[0].last, v);
      HasOr(Interval(runs[0].first, runs[0].last), RunsMask(runs[1..]), v);
    }
  }

  /** Parsing gives back a set other than the full one without the member 31, which is never
      printed: so parsing restores a set exactly if it is full or does not hold 31. */
  lemma PrintParses(s: IntSet)
    ensures Parse(Print(s)).Ok?
    ensures Parse(Print(s)) == Ok(s) <==> s.full || !Contains(s, 31)
    ensures !s.full ==> forall v: int ::
              Contains(Parse(Print(s)).value, v) <==> Contains(s, v) && v != 31
  {
    if s.full {
      return;
    }
    if s.mask == 0 {
      HasNone(31);
      return;
    }
    PrintedListParses(s.mask);
    if !Has(s.mask, 31) {
      Bits32();
      SameBits(Parse(Print(s)).value.mask, s.mask, 32);
    }
  }

  /** So it happens that a set is printed and parsed as the empty one. */
  lemma LastMemberLost()
    ensures Contains(Singleton(31), 31)
    ensures Parse(Print(Singleton(31))).Ok? && !Contains(Parse(Print(Singleton(31))).value, 31)
    ensures Parse(Print(Singleton(31))) != Ok(Singleton(31))
  {
    SingletonContains(31, 31);
    PrintParses(Singleton(31));
  }

  lemma RunsMaskBits(mask: Mask)
    ensures forall v: nat :: v <= 31 ==> (Has(RunsMask(RunsOf(mask)), v) <==> Has(mask, v) && v != 31)
  {
    forall v: nat | v <= 31
      ensures Has(RunsMask(RunsOf(mask)), v) <==> Has(mask, v) && v != 31
    {
      HasRuns(RunsOf(mask), 0, v);
    }
  }

  lemma PrintedListParses(mask: Mask)
    requires mask != 0
    ensures var r := Parse(ListText(RunsOf(mask), 0));
            && r.Ok? && !r.value.full
            && forall v: nat :: v <= 31 ==> (Has(r.value.mask, v) <==> Has(mask, v) && v != 31)
  {
    hide Parse, Has, ListText, RunsMask, Trim, ListMask;
    var runs := RunsOf(mask);
    RunsMaskBits(mask);
    if runs == [] {
      NothingParses();
    } else {
      ListParses(runs, 0);
      ListTextIsTrimmed(ListText(runs, 0));
      ListMaskBound(ListText(runs, 0));
      ListIsParsed(ListText(runs, 0));
    }
  }

  lemma NothingParses()
    ensures ListText([], 0) == "" && Parse("") == Ok(EMPTY) && RunsMask([]) == 0
  {
  }

  lemma ListIsParsed(t: string)
    requires Trim(t) == t && t != "" && t != "*" && t != "-" && ListMask(t).Ok?
    requires ListMask(t).value < 0x1_0000_0000
    ensures Parse(t) == Ok(ByMask(ListMask(t).value))
  {
    hide Trim, ListMask;
  }

  lemma ListTextIsTrimmed(t: string)
    requires t != [] && Digit(t[0]) && Digit(t[|t| - 1])
    ensures Trim(t) == t && t != "*" && t != "-"
  {
  }

  // ---------------------------------------------------------------- what a text says

  /** Decimal notation without a sign or leading zeros. */
  ghost predicate Names(t: string, n: nat) {
    && (forall i :: 0 <= i < |t| ==> '0' <= t[i] <= '9')
    && if n < 10 then |t| == 1 && t[0] as int - '0' as int == n
       else |t| == 2 && t[0] as int - '0' as int == n / 10 && t[1] as int - '0' as int == n % 10
  }

  /** A number for an interval of one member, and its ends around a hyphen for a longer one. */
  ghost predicate ReadsRun(t: string, run: Run) {
    var hyphen := IndexOf(t, '-');
    if run.first == run.last then Names(t, run.first)
    else hyphen < |t| && Names(t[..hyphen], run.first) && Names(t[hyphen + 1..], run.last)
  }

  /** The intervals with single commas between them, and nothing else. */
  ghost predicate Reads(t: string, runs: seq<Run>)
    decreases |runs|
  {
    var comma := IndexOf(t, ',');
    if runs == [] then t == ""
    else if |runs| == 1 then comma == |t| && ReadsRun(t, runs[0])
    else comma < |t| && ReadsRun(t[..comma], runs[0]) && Reads(t[comma + 1..], runs[1..])
  }

  lemma DecimalNames(n: nat)
    requires n <= 31
    ensures Names(Decimal(n), n)
  {
    DecimalParses(n);
  }

  lemma RunReads(run: Run)
    requires run.first <= run.last <= 30
    ensures ReadsRun(RunText(run), run)
    ensures forall i :: 0 <= i < |RunText(run)| ==> RunText(run)[i] != ','
  {
    DecimalNames(run.first);
    DecimalNames(run.last);
    var a, b := Decimal(run.first), Decimal(run.last);
    assert RunText(run) == if run.first == run.last then a else a + ['-'] + b;
    IndexOfJoined(a, '-', b);
  }

  lemma {:induction false} ListReads(runs: seq<Run>, from: nat)
    requires Separate(runs, from)
    ensures Reads(ListText(runs, from), runs)
  {
    hide RunText, ReadsRun;
    if runs != [] {
      RunReads(runs[0]);
      if |runs| > 1 {
        ListReads(runs[1..], runs[0].last + 2);
        var p, rest := RunText(runs[0]), ListText(runs[1..], runs[0].last + 2);
        IndexOfJoined(p, ',', rest);
        assert ListText(runs, from) == p + [','] + rest;
      }
    }
  }

  /** The text of a set that is neither full nor empty is the list of its maximal intervals, the member 31
      left out: a single member is a number, a longer interval its ends with a hyphen between them. */
  lemma PrintReads(s: IntSet)
    requires !s.full && s.mask != 0
    ensures Reads(Print(s), RunsOf(s.mask))
  {
    ListReads(RunsOf(s.mask), 0);
  }

  /** Whether a part of a list names an integer: as its only number, or between its two. */
  ghost predicate PartNames(part: string, v: int) {
    var hyphen := IndexOf(part, '-');
    part != "" &&
    if hyphen == |part| then ParseInt(part) == Ok(v)
    else exists a, b :: ParseInt(Trim(part[..hyphen])) == Ok(a) && ParseInt(Trim(part[hyphen + 1..])) == Ok(b)
                        && a <= v <= b
  }

  /** Whether some part between commas, blanks around it left aside, does. */
  ghost predicate ListNames(list: string, v: int)
    decreases |list|
  {
    var comma := IndexOf(list, ',');
    PartNames(Trim(list[..comma]), v) || (comma < |list| && ListNames(list[comma + 1..], v))
  }

  lemma PartMembers(part: string, v: int)
    requires PartMask(part).Ok?
    ensures v >= 0 && Has(PartMask(part).value, v) <==> PartNames(part, v)
  {
    hide Has, Trim, IndexOf, Interval, Bit, ParseInt;
    if part == "" {
      if v >= 0 {
        HasNone(v);
      }
    } else {
      var hyphen := IndexOf(part, '-');
      if hyphen == |part| {
        var value := ParseValue(part).value;
        if v >= 0 {
          HasBit(value, v);
        }
      } else {
        var start, end := ParseValue(Trim(part[..hyphen])).value, ParseValue(Trim(part[hyphen + 1..])).value;
        if v >= 0 {
          HasInterval(start, end, v);
        }
      }
    }
  }

  lemma {:induction false} ListMembers(list: string, v: int)
    requires ListMask(list).Ok?
    ensures v >= 0 && Has(ListMask(list).value, v) <==> ListNames(list, v)
    decreases |list|
  {
    hide Has, Trim, IndexOf, PartMask, PartNames, Or;
    var comma := IndexOf(list, ',');
    PartMembers(Trim(list[..comma]), v);
    if comma < |list| {
      ListMembers(list[comma + 1..], v);
      if v >= 0 {
        HasOr(PartMask(Trim(list[..comma])).value, ListMask(list[comma + 1..]).value, v);
      }
    }
  }

  /** Trimming takes the characters up to the blank off both ends, and nothing else. */
  lemma {:induction false} TrimExact(s: string)
    ensures exists i, j :: 0 <= i <= j <= |s| && TrimmedTo(s, i, j) && Trim(s) == s[i..j]
    decreases |s|
  {
    hide TrimmedTo;
    if s == "" {
      TrimmedNot(s);
    } else if s[0] <= ' ' {
      TrimExact(s[1..]);
      var i, j :| 0 <= i <= j < |s| && TrimmedTo(s[1..], i, j) && Trim(s[1..]) == s[1..][i..j];
      TrimmedFront(s, i, j);
    } else if s[|s| - 1] <= ' ' {
      TrimExact(s[..|s| - 1]);
      var t := s[..|s| - 1];
      var i, j :| 0 <= i <= j < |s| && TrimmedTo(t, i, j) && Trim(t) == t[i..j];
      TrimmedBack(s, i, j);
    } else {
      TrimmedNot(s);
    }
  }

  lemma TrimmedNot(s: string)
    requires s == "" || (s[0] > ' ' && s[|s| - 1] > ' ')
    ensures TrimmedTo(s, 0, |s|) && Trim(s) == s[0..|s|]
  {
  }

  lemma TrimmedFront(s: string, i: int, j: int)
    requires s != "" && s[0] <= ' ' && TrimmedTo(s[1..], i, j)
    ensures TrimmedTo(s, i + 1, j + 1) && s[1..][i..j] == s[i + 1..j + 1]
  {
    assert forall k :: 0 < k < |s| ==> s[k] == s[1..][k - 1];
  }

  lemma TrimmedBack(s: string, i: int, j: int)
    requires s != "" && s[|s| - 1] <= ' ' && TrimmedTo(s[..|s| - 1], i, j)
    ensures TrimmedTo(s, i, j) && s[..|s| - 1][i..j] == s[i..j]
  {
    assert forall k :: 0 <= k < |s| - 1 ==> s[k] == s[..|s| - 1][k];
  }

  ghost predicate TrimmedTo(s: string, i: int, j: int) {
    && 0 <= i <= j <= |s|
    && (forall k :: 0 <= k < i || j <= k < |s| ==> s[k] <= ' ')
    && (i < j ==> s[i] > ' ' && s[j - 1] > ' ')
  }

  /** A text that parses gives the set of exactly the integers its parts name; "*" names all of them, and a
      lone hyphen none. */
  lemma ParsedMembers(s: string, v: int)
    requires Parse(s).Ok?
    ensures var t := Trim(s);
            Contains(Parse(s).value, v) <==> t == "*" || (t != "" && t != "-" && ListNames(t, v))
  {
    hide Trim, ListMask, ListNames, Has;
    var t := Trim(s);
    if t != "" && t != "-" && t != "*" {
      ListMembers(t, v);
      ListMaskBound(t);
      if v > 31 {
        NotBeyond(ListMask(t).value, 32, v);
      }
    } else if v >= 0 {
      HasNone(v);
    }
  }

  lemma {:induction false} NotBeyond(mask: nat, k: nat, v: nat)
    requires mask < Bit(k) && v >= k
    ensures !Has(mask, v)
  {
    if k == 0 {
      HasNone(v);
    } else {
      NotBeyond(mask / 2, k - 1, v - 1);
    }
  }
}
