/** The one-shot reveal logic of js/animations.js: the scroll-animate
    observer, the statistic counters' targets and start rule, `formatNumber`,
    and the staggered reveal of grid children. Elements are numbered; an
    observer notification is a sequence of entries, each an element and
    whether it is intersecting, and time is an explicit millisecond clock. */
module Animations {
  import opened Optional
  import opened Decimal
  import opened JsText

  /** One `IntersectionObserverEntry`: its target and `isIntersecting`. */
  datatype Entry = Entry(target: nat, intersecting: bool)

  /** The targets of a notification. */
  function Targets(entries: seq<Entry>): set<nat> {
    set e | e in entries :: e.target
  }

  /** The targets of a notification's intersecting entries. */
  function Intersecting(entries: seq<Entry>): (r: set<nat>)
    ensures r <= Targets(entries)
  {
    set e | e in entries && e.intersecting :: e.target
  }

  lemma IntersectingStep(entries: seq<Entry>, k: nat)
    requires k < |entries|
    ensures Intersecting(entries[..k + 1])
         == Intersecting(entries[..k]) + (if entries[k].intersecting then {entries[k].target} else {})
  {
    assert entries[..k + 1] == entries[..k] + [entries[k]];
  }

  // ---- Scroll-animate observer -----------------------------------------

  /** The `.scroll-animate` observer: the elements it still observes and the
      elements carrying the `animated` class. */
  class RevealObserver {
    var observed: set<nat>
    var animated: set<nat>

    constructor(elements: set<nat>, animated: set<nat>)
      ensures observed == elements && this.animated == animated
    {
      observed := elements;
      this.animated := animated;
    }

    /** The callback: each intersecting target gains `animated` and is
        unobserved; the others stay observed. */
    method Notify(entries: seq<Entry>)
      modifies this
      ensures observed == old(observed) - Intersecting(entries)
      ensures animated == old(animated) + Intersecting(entries)
    {
      for k := 0 to |entries|
        invariant observed == old(observed) - Intersecting(entries[..k])
        invariant animated == old(animated) + Intersecting(entries[..k])
      {
        IntersectingStep(entries, k);
        if entries[k].intersecting {
          animated := animated + {entries[k].target};
          observed := observed - {entries[k].target};
        }
      }
      assert entries[..|entries|] == entries;
    }
  }

  /** Notifications only name elements the observer observes when they are
      delivered. */
  predicate Delivered(observed: set<nat>, batches: seq<seq<Entry>>)
    decreases |batches|
  {
    batches == []
    || (Targets(batches[0]) <= observed
        && Delivered(observed - Intersecting(batches[0]), batches[1..]))
  }

  lemma {:induction false} DeliveredTargetsObserved(observed: set<nat>, batches: seq<seq<Entry>>, j: nat)
    requires Delivered(observed, batches) && j < |batches|
    ensures Targets(batches[j]) <= observed
    decreases j
  {
    if j > 0 {
      DeliveredTargetsObserved(observed - Intersecting(batches[0]), batches[1..], j - 1);
    }
  }

  /** Each element is revealed by at most one notification: once it has
      intersected it is no longer observed. */
  lemma {:induction false} RevealedAtMostOnce(observed: set<nat>, batches: seq<seq<Entry>>, i: nat, j: nat)
    requires Delivered(observed, batches) && i < j < |batches|
    ensures Intersecting(batches[i]) !! Intersecting(batches[j])
    decreases i
  {
    var rest := observed - Intersecting(batches[0]);
    if i == 0 {
      DeliveredTargetsObserved(rest, batches[1..], j - 1);
    } else {
      RevealedAtMostOnce(rest, batches[1..], i - 1, j - 1);
    }
  }

  // ---- Counters ----------------------------------------------------------

  /** The target of a `.stat-number`: its `data-target` attribute when present
      and non-empty, else the digits of its text, read by `parseInt`. */
  function CounterTarget(dataTarget: Option<string>, text: string): (t: Option<int>)
    ensures (dataTarget.None? || dataTarget.value == "") && KeepDigits(text) == [] ==> t == None
  {
    ParseInt(if dataTarget.Some? && dataTarget.value != "" then dataTarget.value else KeepDigits(text))
  }

  /** Without the attribute the target is the number the text's digits spell. */
  lemma CounterTargetFromText(dataTarget: Option<string>, text: string)
    requires dataTarget.None? || dataTarget.value == ""
    requires KeepDigits(text) != []
    ensures CounterTarget(dataTarget, text) == Some(Value(KeepDigits(text)))
  {
    ParseIntDigits(KeepDigits(text));
  }

  /** The counter starts only for a truthy target: a number other than 0. */
  predicate Starts(target: Option<int>) {
    target.Some? && target.value != 0
  }

  /** A stat's state: its text, whether its observer still observes it and
      the target of the counter animation started on it. */
  datatype Counter = Counter(text: string, observed: bool, counting: Option<int>)

  /** One intersecting entry for the stat. */
  function StatSeen(c: Counter, dataTarget: Option<string>): Counter {
    var target := CounterTarget(dataTarget, c.text);
    if Starts(target) then Counter("0", false, Some(target.value)) else c
  }

  /** The entries of one notification in order. */
  function CounterNotified(c: Counter, dataTarget: Option<string>, entries: seq<bool>): Counter
    decreases |entries|
  {
    if entries == [] then c
    else
      var before := CounterNotified(c, dataTarget, entries[..|entries| - 1]);
      if entries[|entries| - 1] then StatSeen(before, dataTarget) else before
  }

  /** Without `data-target` a counter starts at most once: once it has started
      its text is "0", which is not a truthy target. */
  lemma StatSeenOnce(c: Counter)
    ensures StatSeen(StatSeen(c, None), None) == StatSeen(c, None)
  {
    var target := CounterTarget(None, c.text);
    if Starts(target) {
      assert KeepDigits("0") == "0";
      CounterTargetFromText(None, "0");
      assert Value("0") == 0;
    }
  }

  /** A stat is unobserved exactly when its counter has started, and only
      ever with a non-zero target. */
  lemma {:induction false} UnobservedOnlyWhenCounting(c: Counter, dataTarget: Option<string>, entries: seq<bool>)
    requires c.observed && c.counting == None
    ensures var r := CounterNotified(c, dataTarget, entries);
      && (!r.observed <==> r.counting.Some?)
      && (r.counting.Some? ==> r.counting.value != 0)
    decreases |entries|
  {
    if entries != [] {
      UnobservedOnlyWhenCounting(c, dataTarget, entries[..|entries| - 1]);
    }
  }

  /** A stat whose text has no digit and no `data-target` never starts and
      stays observed. */
  lemma {:induction false} NoDigitsNeverStarts(c: Counter, entries: seq<bool>)
    requires KeepDigits(c.text) == []
    ensures CounterNotified(c, None, entries) == c
    decreases |entries|
  {
    if entries != [] {
      NoDigitsNeverStarts(c, entries[..|entries| - 1]);
    }
  }

  /** A `.stat-number` element and its own observer. */
  class StatCounter {
    const dataTarget: Option<string>
    var text: string
    var observed: bool
    var counting: Option<int>

    function State(): Counter
      reads this
    {
      Counter(text, observed, counting)
    }

    constructor(dataTarget: Option<string>, text: string)
      ensures this.dataTarget == dataTarget && State() == Counter(text, true, None)
    {
      this.dataTarget := dataTarget;
      this.text := text;
      observed := true;
      counting := None;
    }

    /** The callback: for an intersecting entry with a truthy target the text
        becomes "0", `animateCounter` starts and the stat is unobserved. */
    method Notify(entries: seq<bool>)
      modifies this
      ensures State() == CounterNotified(old(State()), dataTarget, entries)
    {
      for k := 0 to |entries|
        invariant State() == CounterNotified(old(State()), dataTarget, entries[..k])
      {
        assert entries[..k + 1][..k] == entries[..k];
        if entries[k] {
          var digits := if dataTarget.Some? && dataTarget.value != "" then dataTarget.value else KeepDigits(text);
          var target := ParseInt(digits);
          if target.Some? && target.value != 0 {
            text := "0";
            counting := Some(target.value);
            observed := false;
          }
        }
      }
      assert entries[..|entries|] == entries;
    }
  }

  // ---- formatNumber --------------------------------------------------------

  /** `n.toString()` for an integer. */
  function IntToString(n: int): (s: string)
    ensures n >= 0 ==> AllDigits(s) && Value(s) == n
    ensures n < 0 ==> |s| > 1 && s[0] == '-' && AllDigits(s[1..]) && Value(s[1..]) == -n
  {
    NatToStringRoundTrip(if n < 0 then -n else n);
    if n < 0 then "-" + NatToString(-n) else NatToString(n)
  }

  /** `x.toFixed(1)` for a non-negative x given in tenths. */
  function OneDecimal(tenths: nat): (s: string)
    ensures |s| >= 3 && s[|s| - 2] == '.' && IsDigit(s[|s| - 1])
  {
    NatToString(tenths / 10) + "." + [DigitChar(tenths % 10)]
  }

  /** `formatNumber(num)`: one decimal and "M" from a million, one decimal and
      "K" from a thousand, else the plain numeral. The decimal is rounded half
      up on the exact quotient. */
  function FormatNumber(num: int): (r: string)
    ensures r != []
    ensures r[|r| - 1] == 'M' <==> num >= 1000000
    ensures r[|r| - 1] == 'K' <==> 1000 <= num < 1000000
    ensures num < 1000 ==> r == IntToString(num)
  {
    if num >= 1000000 then OneDecimal((num + 50000) / 100000) + "M"
    else if num >= 1000 then OneDecimal((num + 50) / 100) + "K"
    else IntToString(num)
  }

  /** The one-decimal text reads back, by `parseFloat`, as the tenths it
      was made from. */
  lemma OneDecimalReadsBack(tenths: nat)
    ensures ParseFloat(OneDecimal(tenths)) == Some((tenths as real) / 10.0)
  {
    var q, m := tenths / 10, tenths % 10;
    var whole := NatToString(q);
    assert OneDecimal(tenths) == whole + "." + [DigitChar(m)];
    assert Value(whole) == q by {
      NatToStringRoundTrip(q);
    }
    ParseOneDecimal(whole, m);
    SplitTenths(tenths);
  }

  lemma SplitTenths(tenths: nat)
    ensures (tenths / 10) as real + ((tenths % 10) as real) / 10.0 == (tenths as real) / 10.0
  {
    assert tenths == (tenths / 10) * 10 + tenths % 10;
  }

  lemma Tenths(f: real, p: real, d: nat)
    requires p == 10.0 && f == d as real
    ensures f / p == d as real / 10.0
  {
  }

  /** `parseFloat` of digits, a point and one more digit. */
  lemma ParseOneDecimal(whole: string, d: nat)
    requires AllDigits(whole) && whole != [] && d < 10
    ensures ParseFloat(whole + "." + [DigitChar(d)]) == Some(Value(whole) as real + d as real / 10.0)
  {
    ParseFloatDecimal(whole, [DigitChar(d)]);
    OneDigitFraction(d);
  }

  /** One digit after the point counts tenths. */
  lemma OneDigitFraction(d: nat)
    requires d < 10
    ensures Fraction([DigitChar(d)]) == d as real / 10.0
  {
    var fraction := [DigitChar(d)];
    assert Value(fraction) == d by {
      assert fraction[..0] == [];
    }
    assert Pow10(|fraction|) == 10;
    Tenths(Value(fraction) as real, Pow10(|fraction|) as real, d);
  }

  /** In the thousands the number before "K" reads back within half a tenth
      of `num / 1000`, and exactly when `num` is a multiple of 100. */
  lemma FormatThousandsReadsBack(num: int)
    requires 1000 <= num < 1000000
    ensures var r := FormatNumber(num);
      && r == OneDecimal((num + 50) / 100) + "K"
      && ParseFloat(r[..|r| - 1]).Some?
      && -50.0 < ParseFloat(r[..|r| - 1]).value * 1000.0 - num as real <= 50.0
      && (num % 100 == 0 ==> ParseFloat(r[..|r| - 1]) == Some(num as real / 1000.0))
  {
    var t := (num + 50) / 100;
    var r := FormatNumber(num);
    assert r == OneDecimal(t) + ['K'];
    var text := r[..|r| - 1];
    assert text == OneDecimal(t) by {
      DropUnit(OneDecimal(t), 'K');
    }
    assert ParseFloat(text) == Some(t as real / 10.0) by {
      OneDecimalReadsBack(t);
    }
    ThousandsRounding(num, t, text);
  }

  /** In the millions the number before "M" reads back within half a tenth
      of `num / 1000000`, and exactly when `num` is a multiple of 100000. */
  lemma FormatMillionsReadsBack(num: int)
    requires num >= 1000000
    ensures var r := FormatNumber(num);
      && r == OneDecimal((num + 50000) / 100000) + "M"
      && ParseFloat(r[..|r| - 1]).Some?
      && -50000.0 < ParseFloat(r[..|r| - 1]).value * 1000000.0 - num as real <= 50000.0
      && (num % 100000 == 0 ==> ParseFloat(r[..|r| - 1]) == Some(num as real / 1000000.0))
  {
    var t := (num + 50000) / 100000;
    var r := FormatNumber(num);
    assert r == OneDecimal(t) + ['M'];
    var text := r[..|r| - 1];
    assert text == OneDecimal(t) by {
      DropUnit(OneDecimal(t), 'M');
    }
    assert ParseFloat(text) == Some(t as real / 10.0) by {
      OneDecimalReadsBack(t);
    }
    MillionsRounding(num, t, text);
  }

  /** The text before a unit letter. */
  lemma DropUnit(s: string, unit: char)
    ensures (s + [unit])[..|s + [unit]| - 1] == s
  {
  }

  /** Text that reads back as `num` rounded half up to tenths of a thousand
      lies within half a tenth of `num / 1000`, and is exact on multiples of 100. */
  lemma ThousandsRounding(num: int, t: int, text: string)
    requires t == (num + 50) / 100 && ParseFloat(text) == Some(t as real / 10.0)
    ensures ParseFloat(text).Some?
    ensures -50.0 < ParseFloat(text).value * 1000.0 - num as real <= 50.0
    ensures num % 100 == 0 ==> ParseFloat(text) == Some(num as real / 1000.0)
  {
    ThousandsArith(num, t, ParseFloat(text).value);
  }

  /** Text that reads back as `num` rounded half up to tenths of a million
      lies within half a tenth of `num / 1000000`, and is exact on multiples
      of 100000. */
  lemma MillionsRounding(num: int, t: int, text: string)
    requires t == (num + 50000) / 100000 && ParseFloat(text) == Some(t as real / 10.0)
    ensures ParseFloat(text).Some?
    ensures -50000.0 < ParseFloat(text).value * 1000000.0 - num as real <= 50000.0
    ensures num % 100000 == 0 ==> ParseFloat(text) == Some(num as real / 1000000.0)
  {
    MillionsArith(num, t, ParseFloat(text).value);
  }

  lemma ThousandsArith(num: int, t: int, v: real)
    requires t == (num + 50) / 100 && v == t as real / 10.0
    ensures -50.0 < v * 1000.0 - num as real <= 50.0
    ensures num % 100 == 0 ==> v == num as real / 1000.0
  {
    assert num - 50 < t * 100 <= num + 50;
    assert v * 1000.0 == (t * 100) as real;
  }

  lemma MillionsArith(num: int, t: int, v: real)
    requires t == (num + 50000) / 100000 && v == t as real / 10.0
    ensures -50000.0 < v * 1000000.0 - num as real <= 50000.0
    ensures num % 100000 == 0 ==> v == num as real / 1000000.0
  {
    assert num - 50000 < t * 100000 <= num + 50000;
    assert v * 1000000.0 == (t * 100000) as real;
  }

  /** 12500 shows as "12.5K" and 950 as "950". */
  lemma FormatExamples()
    ensures FormatNumber(12500) == "12.5K"
    ensures FormatNumber(950) == "950"
  {
    assert NatToString(12) == "12";
    assert NatToString(950) == "950";
  }

  // ---- Staggered grid reveal --------------------------------------------

  /** A pending `setTimeout` that timers `element` at `due`. */
  datatype Reveal = Reveal(element: nat, due: int)

  /** `staggerAnimation`'s timers: element `i` is revealed `i * delay` after `now`. */
  function Schedule(elements: seq<nat>, delay: nat, now: int): (r: seq<Reveal>)
    ensures |r| == |elements|
    ensures forall i :: 0 <= i < |r| ==> r[i].element == elements[i]
  {
    seq(|elements|, i requires 0 <= i < |elements| => Reveal(elements[i], now + i * delay))
  }

  /** With a positive delay the reveal times strictly increase with the index,
      the first at `now` and each `delay` after the previous one. */
  lemma ScheduleIncreasing(elements: seq<nat>, delay: nat, now: int, i: nat, j: nat)
    requires i < j < |elements|
    ensures var r := Schedule(elements, delay, now);
      && r[0].due == now
      && r[j].due - r[i].due == (j - i) * delay
      && (delay > 0 ==> r[i].due < r[j].due)
  {
    var r := Schedule(elements, delay, now);
    assert r[j].due - r[i].due == j * delay - i * delay;
    Distributes(j, i, delay);
    MulMonotone(1, j - i, delay);
  }

  lemma Distributes(a: int, b: int, c: int)
    ensures a * c - b * c == (a - b) * c
  {
  }

  /** The elements that get the hidden initial style: those not yet `animated`. */
  function Unanimated(elements: seq<nat>, animated: set<nat>): set<nat> {
    set e | e in elements && e !in animated
  }

  /** Grid children's styles and reveal timers: `animated` elements carry the
      class, `hidden` ones the opacity-0 initial style. */
  class Stagger {
    var animated: set<nat>
    var hidden: set<nat>
    var timers: seq<Reveal>

    constructor(animated: set<nat>)
      ensures this.animated == animated && hidden == {} && timers == []
    {
      this.animated := animated;
      hidden := {};
      timers := [];
    }

    /** `staggerAnimation(elements, delay)` called at `now`. */
    method Run(elements: seq<nat>, delay: nat, now: int)
      modifies this
      ensures animated == old(animated)
      ensures hidden == old(hidden) + Unanimated(elements, animated)
      ensures timers == old(timers) + Schedule(elements, delay, now)
    {
      for i := 0 to |elements|
        invariant animated == old(animated)
        invariant hidden == old(hidden) + Unanimated(elements[..i], animated)
        invariant timers == old(timers) + Schedule(elements[..i], delay, now)
      {
        assert elements[..i + 1] == elements[..i] + [elements[i]];
        var el := elements[i];
        if el !in animated {
          hidden := hidden + {el};
        }
        timers := timers + [Reveal(el, now + i * delay)];
      }
      assert elements[..|elements|] == elements;
    }

    /** The event loop runs the reveal timer at position `k`: the element
        shows and gains `animated`. */
    method Fire(k: nat, now: int)
      requires k < |timers| && timers[k].due <= now
      modifies this
      ensures animated == old(animated) + {old(timers)[k].element}
      ensures hidden == old(hidden) - {old(timers)[k].element}
      ensures timers == old(timers)[..k] + old(timers)[k + 1..]
    {
      var el := timers[k].element;
      animated := animated + {el};
      hidden := hidden - {el};
      timers := timers[..k] + timers[k + 1..];
    }
  }

  /** The default stagger delay. */
  const StaggerDelay: nat := 150

  /** An entry on which the grid observer acts: intersecting, with children. */
  predicate Ready(children: map<nat, seq<nat>>, e: Entry) {
    e.intersecting && e.target in children && |children[e.target]| > 0
  }

  /** The grids a notification unobserves. */
  function ReadyGrids(children: map<nat, seq<nat>>, entries: seq<Entry>): (r: set<nat>)
    ensures r <= Intersecting(entries)
  {
    set e | e in entries && Ready(children, e) :: e.target
  }

  /** The reveal timers a notification schedules, grid after grid. */
  function GridSchedules(children: map<nat, seq<nat>>, entries: seq<Entry>, now: int): seq<Reveal>
    decreases |entries|
  {
    if entries == [] then []
    else
      var e := entries[|entries| - 1];
      GridSchedules(children, entries[..|entries| - 1], now)
        + (if Ready(children, e) then Schedule(children[e.target], StaggerDelay, now) else [])
  }

  /** The children a notification hides: those of ready grids not yet animated. */
  function GridHidden(children: map<nat, seq<nat>>, entries: seq<Entry>, animated: set<nat>): (r: set<nat>)
    ensures r !! animated
    decreases |entries|
  {
    if entries == [] then {}
    else
      var e := entries[|entries| - 1];
      GridHidden(children, entries[..|entries| - 1], animated)
        + (if Ready(children, e) then Unanimated(children[e.target], animated) else {})
  }

  /** One more entry unobserves its grid and schedules its children when
      the grid is ready. */
  lemma GridStep(children: map<nat, seq<nat>>, entries: seq<Entry>, e: Entry, now: int)
    ensures ReadyGrids(children, entries + [e])
         == ReadyGrids(children, entries) + (if Ready(children, e) then {e.target} else {})
    ensures GridSchedules(children, entries + [e], now)
         == GridSchedules(children, entries, now)
            + (if Ready(children, e) then Schedule(children[e.target], StaggerDelay, now) else [])
    ensures forall animated: set<nat> ::
      GridHidden(children, entries + [e], animated)
      == GridHidden(children, entries, animated)
         + (if Ready(children, e) then Unanimated(children[e.target], animated) else {})
  {
    assert (entries + [e])[..|entries|] == entries;
  }

  /** `GridStep` for the entries before and up to index `k`. */
  lemma GridPrefixStep(children: map<nat, seq<nat>>, entries: seq<Entry>, k: nat, now: int, animated: set<nat>)
    requires k < |entries|
    ensures var e := entries[k];
      && ReadyGrids(children, entries[..k + 1])
         == ReadyGrids(children, entries[..k]) + (if Ready(children, e) then {e.target} else {})
      && GridSchedules(children, entries[..k + 1], now)
         == GridSchedules(children, entries[..k], now)
            + (if Ready(children, e) then Schedule(children[e.target], StaggerDelay, now) else [])
      && GridHidden(children, entries[..k + 1], animated)
         == GridHidden(children, entries[..k], animated)
            + (if Ready(children, e) then Unanimated(children[e.target], animated) else {})
  {
    assert entries[..k + 1] == entries[..k] + [entries[k]];
    GridStep(children, entries[..k], entries[k], now);
  }

  lemma ConcatAssoc<T>(a: seq<T>, b: seq<T>, c: seq<T>)
    ensures a + (b + c) == a + b + c
  {
  }

  /** A grid without children is never unobserved, whatever it reports. */
  lemma ChildlessGridStaysObserved(children: map<nat, seq<nat>>, entries: seq<Entry>, g: nat)
    requires g in children && children[g] == []
    ensures g !in ReadyGrids(children, entries)
  {
  }

  /** The `.grid` observer; `children` gives each grid's children. */
  class GridObserver {
    const children: map<nat, seq<nat>>
    const items: Stagger
    var observed: set<nat>

    constructor(children: map<nat, seq<nat>>, items: Stagger)
      ensures this.children == children && this.items == items
      ensures observed == children.Keys
    {
      this.children := children;
      this.items := items;
      observed := children.Keys;
    }

    /** The callback at `now`: an intersecting grid with children staggers
        them and is unobserved. */
    method Notify(entries: seq<Entry>, now: int)
      requires forall e :: e in entries ==> e.target in children
      modifies this, items
      ensures observed == old(observed) - ReadyGrids(children, entries)
      ensures items.animated == old(items.animated)
      ensures items.hidden == old(items.hidden) + GridHidden(children, entries, old(items.animated))
      ensures items.timers == old(items.timers) + GridSchedules(children, entries, now)
    {
      for k := 0 to |entries|
        invariant observed == old(observed) - ReadyGrids(children, entries[..k])
        invariant items.animated == old(items.animated)
        invariant items.hidden == old(items.hidden) + GridHidden(children, entries[..k], old(items.animated))
        invariant items.timers == old(items.timers) + GridSchedules(children, entries[..k], now)
      {
        GridPrefixStep(children, entries, k, now, old(items.animated));
        var e := entries[k];
        ConcatAssoc(old(items.timers), GridSchedules(children, entries[..k], now),
          if Ready(children, e) then Schedule(children[e.target], StaggerDelay, now) else []);
        Handle(e, now);
      }
      assert entries[..|entries|] == entries;
    }

    /** One entry of the callback. */
    method Handle(e: Entry, now: int)
      requires e.target in children
      modifies this, items
      ensures observed == old(observed) - (if Ready(children, e) then {e.target} else {})
      ensures items.animated == old(items.animated)
      ensures items.hidden == old(items.hidden)
        + (if Ready(children, e) then Unanimated(children[e.target], old(items.animated)) else {})
      ensures items.timers == old(items.timers)
        + (if Ready(children, e) then Schedule(children[e.target], StaggerDelay, now) else [])
    {
      if e.intersecting && |children[e.target]| > 0 {
        items.Run(children[e.target], StaggerDelay, now);
        observed := observed - {e.target};
      } else {
        assert items.timers + [] == items.timers;
      }
    }
  }
}
