/** The scholarship records, the filter the listing page applies to them and
    the sort keys its three sort options compare (js/scholarships.js). */
module Catalog {
  import opened Optional
  import opened Decimal
  import opened JsText

  /** One listing record. `amount` is display text such as "$10,000" and
      `deadline` an ISO calendar date "YYYY-MM-DD". */
  datatype Scholarship = Scholarship(
    id: nat,
    title: string,
    description: string,
    amount: string,
    deadline: string,
    category: string,
    level: string,
    image: string)

  /** The fixed catalog the page ships with. */
  function ScholarshipsData(): seq<Scholarship> {
    [MeritRecord(), StemRecord(), CommunityRecord(), InternationalRecord(), ArtsRecord(), FirstGenerationRecord()]
  }

  function MeritRecord(): Scholarship {
    Scholarship(1, "Merit-Based Excellence Scholarship",
      "Awarded to students with outstanding academic achievements and leadership qualities.",
      "$10,000", "2024-12-31", "Merit-Based", "Undergraduate",
      "assets/img/merit-based-excellence.png")
  }

  function StemRecord(): Scholarship {
    Scholarship(2, "STEM Innovation Grant",
      "Supporting students pursuing degrees in Science, Technology, Engineering, and Mathematics.",
      "$15,000", "2024-11-30", "STEM", "Graduate",
      "assets/img/stem-innovation-grant.png")
  }

  function CommunityRecord(): Scholarship {
    Scholarship(3, "Community Service Award",
      "Recognizing students who have made significant contributions to their communities.",
      "$8,000", "2024-12-15", "Community", "Undergraduate",
      "assets/img/community-service-award.png")
  }

  function InternationalRecord(): Scholarship {
    Scholarship(4, "International Student Scholarship",
      "Financial assistance for international students pursuing higher education.",
      "$12,000", "2024-11-20", "International", "All Levels",
      "https://images.unsplash.com/photo-1509062522246-3755977927d7?w=400")
  }

  function ArtsRecord(): Scholarship {
    Scholarship(5, "Arts & Humanities Fellowship",
      "Supporting talented students in arts, literature, and humanities programs.",
      "$9,000", "2024-12-10", "Arts", "Graduate",
      "https://images.unsplash.com/photo-1513475382585-d06e58bcb0e0?w=400")
  }

  function FirstGenerationRecord(): Scholarship {
    Scholarship(6, "First Generation College Grant",
      "Helping first-generation college students achieve their educational dreams.",
      "$7,500", "2024-12-05", "Need-Based", "Undergraduate",
      "https://images.unsplash.com/photo-1522202176988-66273c2fd55f?w=400")
  }

  /** The control values one filtering pass works with. `search` is already
      lower-cased; "all" in `category` or `level` means no constraint. */
  datatype Filters = Filters(search: string, category: string, level: string, sort: string)

  /** The controls as read at the start of a pass: the search text lower-cased,
      and '', 'all', 'all', 'default' for a control the page does not have. */
  function ReadControls(search: Option<string>, category: Option<string>,
                        level: Option<string>, sort: Option<string>): Filters
  {
    Filters(if search.Some? then ToLower(search.value) else "",
            category.GetOr("all"), level.GetOr("all"), sort.GetOr("default"))
  }

  /** The filter predicate: the search term occurs in the lower-cased title or
      description, and the category and level selectors are "all" or equal. */
  predicate Matches(r: Scholarship, f: Filters) {
    && (Includes(ToLower(r.title), f.search) || Includes(ToLower(r.description), f.search))
    && (f.category == "all" || r.category == f.category)
    && (f.level == "all" || r.level == f.level)
  }

  /** `Array.prototype.filter` with `Matches`: a new sequence, in catalog order. */
  function Filter(c: seq<Scholarship>, f: Filters): (r: seq<Scholarship>)
    ensures |r| <= |c|
    ensures forall x :: x in r <==> x in c && Matches(x, f)
  {
    if c == [] then []
    else (if Matches(c[0], f) then [c[0]] else []) + Filter(c[1..], f)
  }

  /** `s` can be obtained from `t` by deleting elements, keeping the order. */
  predicate IsSubsequence<T(==)>(s: seq<T>, t: seq<T>) {
    if s == [] then true
    else if t == [] then false
    else (s[0] == t[0] && IsSubsequence(s[1..], t[1..])) || IsSubsequence(s, t[1..])
  }

  lemma {:induction false} FilterIsSubsequence(c: seq<Scholarship>, f: Filters)
    ensures IsSubsequence(Filter(c, f), c)
  {
    if c != [] {
      FilterIsSubsequence(c[1..], f);
      if Matches(c[0], f) {
        assert Filter(c, f) == [c[0]] + Filter(c[1..], f);
        assert Filter(c, f)[1..] == Filter(c[1..], f);
      } else {
        assert Filter(c, f) == Filter(c[1..], f);
        if Filter(c, f) != [] {
          assert IsSubsequence(Filter(c, f), c[1..]);
        }
      }
    }
  }

  lemma {:induction false} FilterAppend(a: seq<Scholarship>, b: seq<Scholarship>, f: Filters)
    ensures Filter(a + b, f) == Filter(a, f) + Filter(b, f)
  {
    if a != [] {
      assert (a + b)[1..] == a[1..] + b;
      FilterAppend(a[1..], b, f);
    } else {
      assert a + b == b;
    }
  }

  /** When every record matches, filtering returns the catalog itself, in order. */
  lemma {:induction false} FilterKeepsAll(c: seq<Scholarship>, f: Filters)
    requires forall i :: 0 <= i < |c| ==> Matches(c[i], f)
    ensures Filter(c, f) == c
  {
    if c != [] {
      FilterKeepsAll(c[1..], f);
    }
  }

  /** A category or level that no record carries selects nothing: it is not
      treated as "all". */
  lemma {:induction false} UnknownSelectorSelectsNothing(c: seq<Scholarship>, f: Filters)
    requires (f.category != "all" && forall i :: 0 <= i < |c| ==> c[i].category != f.category)
          || (f.level != "all" && forall i :: 0 <= i < |c| ==> c[i].level != f.level)
    ensures Filter(c, f) == []
  {
    if c != [] {
      assert !Matches(c[0], f);
      UnknownSelectorSelectsNothing(c[1..], f);
    }
  }

  // ---- Sort keys -------------------------------------------------------

  /** The amount as the comparators read it: `parseFloat` of the text with the
      first '$' and then the first ',' removed. */
  function AmountValue(amount: string): (r: Option<real>)
    ensures r.Some? ==> r.value >= 0.0
  {
    ParseFloat(RemoveFirst(RemoveFirst(amount, '$'), ','))
  }

  /** "$", digits, one separator and more digits read as the digits; text
      after them that does not continue a numeral is ignored. */
  lemma {:induction false} DollarAmount(high: string, low: string, tail: string)
    requires AllDigits(high) && AllDigits(low) && high != []
    requires tail == [] || (!IsDigit(tail[0]) && tail[0] != '.')
    ensures AmountValue("$" + high + "," + low + tail) == Some(Value(high + low) as real)
  {
    var s := "$" + high + "," + low + tail;
    var t := high + "," + low + tail;
    var digits := high + low;
    assert RemoveFirst(s, '$') == t by {
      assert s == ['$'] + t;
      StripLeading(t, '$');
    }
    assert RemoveFirst(t, ',') == digits + tail by {
      StripSeparator(high, low + tail);
      assert t == high + "," + (low + tail);
      assert high + (low + tail) == digits + tail;
    }
    assert ParseFloat(digits + tail) == Some(Value(digits) as real) by {
      ParseFloatIgnoresTail(digits, tail);
    }
  }

  /** Removing the first ',' from digits + "," + `rest` joins the two parts. */
  lemma StripSeparator(high: string, rest: string)
    requires AllDigits(high)
    ensures RemoveFirst(high + "," + rest, ',') == high + rest
  {
    var t := high + "," + rest;
    assert t[..|high|] == high && t[|high|] == ',' && t[|high| + 1..] == rest;
    assert ',' !in t[..|high|];
    RemoveFirstAt(t, ',', |high|);
  }

  /** Removing the first `c` from `c` + `t` gives back `t`. */
  lemma StripLeading(t: string, c: char)
    ensures RemoveFirst([c] + t, c) == t
  {
    assert ([c] + t)[1..] == t;
  }

  /** An amount written "$", digits, one separator and more digits reads as
      the number its digits spell. */
  lemma AmountParses(high: string, low: string)
    requires AllDigits(high) && AllDigits(low) && high != []
    ensures AmountValue("$" + high + "," + low) == Some(Value(high + low) as real)
  {
    DollarAmount(high, low, []);
    assert "$" + high + "," + low + [] == "$" + high + "," + low;
  }

  /** Only the first separator is removed, so everything from a second
      separator on is ignored: "$1,000,000" reads as 1000, like "$1,000". */
  lemma SecondSeparatorIgnored(high: string, low: string, rest: string)
    requires AllDigits(high) && AllDigits(low) && high != []
    ensures AmountValue("$" + high + "," + low + "," + rest) == AmountValue("$" + high + "," + low)
  {
    DollarAmount(high, low, "," + rest);
    assert "$" + high + "," + low + ("," + rest) == "$" + high + "," + low + "," + rest;
    AmountParses(high, low);
  }

  /** A well-formed ISO date "YYYY-MM-DD" with month 01-12 and day 01-31. */
  predicate IsIsoDate(s: string) {
    && |s| == 10 && s[4] == '-' && s[7] == '-'
    && AllDigits(s[..4]) && AllDigits(s[5..7]) && AllDigits(s[8..])
    && 1 <= Value(s[5..7]) <= 12 && 1 <= Value(s[8..]) <= 31
  }

  /** The eight digits of an ISO date, year first. */
  function DateDigits(s: string): (d: string)
    requires IsIsoDate(s)
    ensures |d| == 8 && AllDigits(d)
  {
    s[..4] + s[5..7] + s[8..]
  }

  /** The deadline as the comparator orders it: the number YYYYMMDD, which
      orders calendar dates as their time values do; `None` stands for an
      invalid date. */
  function DateKey(deadline: string): (k: Option<nat>)
    ensures k.Some? <==> IsIsoDate(deadline)
    ensures k.Some? ==> k.value < 100000000
  {
    if IsIsoDate(deadline) then
      var d := DateDigits(deadline);
      ValueBound(d);
      assert Pow10(8) == 100000000;
      Some(Value(d))
    else None
  }

  /** For ISO dates, chronological order is the lexicographic order of the text. */
  lemma DeadlineOrderIsTextOrder(a: string, b: string)
    requires IsIsoDate(a) && IsIsoDate(b)
    ensures DateKey(a).value < DateKey(b).value <==> LexLess(a, b)
  {
    var ya, ma, da := a[..4], a[5..7], a[8..];
    var yb, mb, db := b[..4], b[5..7], b[8..];
    assert LexLess(a, b) <==> LexLess(ya + (ma + da), yb + (mb + db)) by {
      assert a == ya + ("-" + (ma + ("-" + da)));
      assert b == yb + ("-" + (mb + ("-" + db)));
      LexLessAppend(ya, "-" + (ma + ("-" + da)), yb, "-" + (mb + ("-" + db)));
      LexLessAppend("-", ma + ("-" + da), "-", mb + ("-" + db));
      LexLessAppend(ma, "-" + da, mb, "-" + db);
      LexLessAppend("-", da, "-", db);
      assert !LexLess("-", "-");
      LexLessAppend(ya, ma + da, yb, mb + db);
      LexLessAppend(ma, da, mb, db);
    }
    assert DateDigits(a) == ya + (ma + da) && DateDigits(b) == yb + (mb + db);
    LexLessIsNumeric(DateDigits(a), DateDigits(b));
  }

  /** The three orders the sort selector offers; any other value leaves the
      filtered order as it is. */
  datatype Order = AmountHigh | AmountLow | Deadline

  function OrderOf(sort: string): (o: Option<Order>)
    ensures o == Some(AmountHigh) <==> sort == "amount-high"
    ensures o == Some(AmountLow) <==> sort == "amount-low"
    ensures o == Some(Deadline) <==> sort == "deadline"
  {
    if sort == "amount-high" then Some(AmountHigh)
    else if sort == "amount-low" then Some(AmountLow)
    else if sort == "deadline" then Some(Deadline)
    else None
  }

  /** The sort key under `o`; each comparator returns `SortKey(o, a) - SortKey(o, b)`,
      so "amount-high" compares negated amounts. `None` stands for NaN, which
      an amount that does not parse or an invalid date yields. */
  function SortKey(o: Order, r: Scholarship): (k: Option<real>)
    ensures o != Deadline ==> (k.Some? <==> AmountValue(r.amount).Some?)
    ensures o == Deadline ==> (k.Some? <==> IsIsoDate(r.deadline))
  {
    match o
    case AmountHigh => if AmountValue(r.amount).Some? then Some(-AmountValue(r.amount).value) else None
    case AmountLow => AmountValue(r.amount)
    case Deadline => if IsIsoDate(r.deadline) then Some(DateKey(r.deadline).value as real) else None
  }

  /** The record has a key under every order: its amount and its deadline parse. */
  predicate Keyed(r: Scholarship) {
    AmountValue(r.amount).Some? && IsIsoDate(r.deadline)
  }

  /** Each shipped record has its keys: its amount reads as the dollars it
      shows and its deadline is an ISO date. */
  lemma MeritKeyed()
    ensures Keyed(MeritRecord()) && AmountValue(MeritRecord().amount) == Some(10000.0)
  {
    var r := MeritRecord();
    assert r.amount == "$10,000" && r.deadline == "2024-12-31";
    MeritAmount();
    MeritDate();
  }

  lemma MeritAmount()
    ensures AmountValue("$10,000") == Some(10000.0)
  {
    assert "$10,000" == "$" + "10" + "," + "000";
    assert Value("10") == 10 by { assert "10"[..1] == "1"; }
    assert Value("000") == 0 by { assert "000"[..2] == "00" && "00"[..1] == "0"; }
    ShippedAmount("10", "000", 10000);
  }

  lemma MeritDate()
    ensures IsIsoDate("2024-12-31")
  {
    var s := "2024-12-31";
    assert s[5..7] == "12" && s[8..] == "31";
    assert Value("12") == 12 by { assert "12"[..1] == "1"; }
    assert Value("31") == 31 by { assert "31"[..1] == "3"; }
    ShippedDate(s, 12, 31);
  }

  lemma StemKeyed()
    ensures Keyed(StemRecord()) && AmountValue(StemRecord().amount) == Some(15000.0)
  {
    var r := StemRecord();
    assert r.amount == "$15,000" && r.deadline == "2024-11-30";
    StemAmount();
    StemDate();
  }

  lemma StemAmount()
    ensures AmountValue("$15,000") == Some(15000.0)
  {
    assert "$15,000" == "$" + "15" + "," + "000";
    assert Value("15") == 15 by { assert "15"[..1] == "1"; }
    assert Value("000") == 0 by { assert "000"[..2] == "00" && "00"[..1] == "0"; }
    ShippedAmount("15", "000", 15000);
  }

  lemma StemDate()
    ensures IsIsoDate("2024-11-30")
  {
    var s := "2024-11-30";
    assert s[5..7] == "11" && s[8..] == "30";
    assert Value("11") == 11 by { assert "11"[..1] == "1"; }
    assert Value("30") == 30 by { assert "30"[..1] == "3"; }
    ShippedDate(s, 11, 30);
  }

  lemma CommunityKeyed()
    ensures Keyed(CommunityRecord()) && AmountValue(CommunityRecord().amount) == Some(8000.0)
  {
    var r := CommunityRecord();
    assert r.amount == "$8,000" && r.deadline == "2024-12-15";
    CommunityAmount();
    CommunityDate();
  }

  lemma CommunityAmount()
    ensures AmountValue("$8,000") == Some(8000.0)
  {
    assert "$8,000" == "$" + "8" + "," + "000";
    assert Value("8") == 8 by { assert "8"[..0] == []; }
    assert Value("000") == 0 by { assert "000"[..2] == "00" && "00"[..1] == "0"; }
    ShippedAmount("8", "000", 8000);
  }

  lemma CommunityDate()
    ensures IsIsoDate("2024-12-15")
  {
    var s := "2024-12-15";
    assert s[5..7] == "12" && s[8..] == "15";
    assert Value("12") == 12 by { assert "12"[..1] == "1"; }
    assert Value("15") == 15 by { assert "15"[..1] == "1"; }
    ShippedDate(s, 12, 15);
  }

  lemma InternationalKeyed()
    ensures Keyed(InternationalRecord()) && AmountValue(InternationalRecord().amount) == Some(12000.0)
  {
    var r := InternationalRecord();
    assert r.amount == "$12,000" && r.deadline == "2024-11-20";
    InternationalAmount();
    InternationalDate();
  }

  lemma InternationalAmount()
    ensures AmountValue("$12,000") == Some(12000.0)
  {
    assert "$12,000" == "$" + "12" + "," + "000";
    assert Value("12") == 12 by { assert "12"[..1] == "1"; }
    assert Value("000") == 0 by { assert "000"[..2] == "00" && "00"[..1] == "0"; }
    ShippedAmount("12", "000", 12000);
  }

  lemma InternationalDate()
    ensures IsIsoDate("2024-11-20")
  {
    var s := "2024-11-20";
    assert s[5..7] == "11" && s[8..] == "20";
    assert Value("11") == 11 by { assert "11"[..1] == "1"; }
    assert Value("20") == 20 by { assert "20"[..1] == "2"; }
    ShippedDate(s, 11, 20);
  }

  lemma ArtsKeyed()
    ensures Keyed(ArtsRecord()) && AmountValue(ArtsRecord().amount) == Some(9000.0)
  {
    var r := ArtsRecord();
    assert r.amount == "$9,000" && r.deadline == "2024-12-10";
    ArtsAmount();
    ArtsDate();
  }

  lemma ArtsAmount()
    ensures AmountValue("$9,000") == Some(9000.0)
  {
    assert "$9,000" == "$" + "9" + "," + "000";
    assert Value("9") == 9 by { assert "9"[..0] == []; }
    assert Value("000") == 0 by { assert "000"[..2] == "00" && "00"[..1] == "0"; }
    ShippedAmount("9", "000", 9000);
  }

  lemma ArtsDate()
    ensures IsIsoDate("2024-12-10")
  {
    var s := "2024-12-10";
    assert s[5..7] == "12" && s[8..] == "10";
    assert Value("12") == 12 by { assert "12"[..1] == "1"; }
    assert Value("10") == 10 by { assert "10"[..1] == "1"; }
    ShippedDate(s, 12, 10);
  }

  lemma FirstGenerationKeyed()
    ensures Keyed(FirstGenerationRecord()) && AmountValue(FirstGenerationRecord().amount) == Some(7500.0)
  {
    var r := FirstGenerationRecord();
    assert r.amount == "$7,500" && r.deadline == "2024-12-05";
    FirstGenerationAmount();
    FirstGenerationDate();
  }

  lemma FirstGenerationAmount()
    ensures AmountValue("$7,500") == Some(7500.0)
  {
    assert "$7,500" == "$" + "7" + "," + "500";
    assert Value("7") == 7 by { assert "7"[..0] == []; }
    assert Value("500") == 500 by { assert "500"[..2] == "50" && "50"[..1] == "5"; }
    ShippedAmount("7", "500", 7500);
  }

  lemma FirstGenerationDate()
    ensures IsIsoDate("2024-12-05")
  {
    var s := "2024-12-05";
    assert s[5..7] == "12" && s[8..] == "05";
    assert Value("12") == 12 by { assert "12"[..1] == "1"; }
    assert Value("05") == 5 by { assert "05"[..1] == "0"; }
    ShippedDate(s, 12, 5);
  }

  /** An amount "$" + `high` + "," + `low` whose digits spell `v`. */
  lemma ShippedAmount(high: string, low: string, v: nat)
    requires AllDigits(high) && AllDigits(low) && high != [] && |low| == 3
    requires Value(high) * 1000 + Value(low) == v
    ensures AmountValue("$" + high + "," + low) == Some(v as real)
  {
    ValueThousands(high, low);
    var n := Value(high + low);
    assert n == v;
    AmountParses(high, low);
    assert AmountValue("$" + high + "," + low) == Some(n as real);
  }

  /** Three more digits shift the value by a thousand. */
  lemma ValueThousands(high: string, low: string)
    requires AllDigits(high) && AllDigits(low) && |low| == 3
    ensures AllDigits(high + low) && Value(high + low) == Value(high) * 1000 + Value(low)
  {
    var d0, d1, d2 := DigitValue(low[0]), DigitValue(low[1]), DigitValue(low[2]);
    var a, b := high + low[..1], high + low[..2];
    assert a == high + [low[0]] && b == a + [low[1]] && high + low == b + [low[2]];
    ValueSnoc(high, low[0]);
    ValueSnoc(a, low[1]);
    ValueSnoc(b, low[2]);
    assert low[..1] == [] + [low[0]] && low[..2] == low[..1] + [low[1]] && low == low[..2] + [low[2]];
    ValueSnoc([], low[0]);
    ValueSnoc(low[..1], low[1]);
    ValueSnoc(low[..2], low[2]);
    Thousands(Value(high), d0, d1, d2);
  }

  lemma Thousands(h: int, d0: int, d1: int, d2: int)
    ensures ((h * 10 + d0) * 10 + d1) * 10 + d2 == h * 1000 + (((0 * 10 + d0) * 10 + d1) * 10 + d2)
  {
  }

  /** Appending a digit multiplies the value by ten and adds the digit. */
  lemma ValueSnoc(s: string, c: char)
    requires AllDigits(s) && IsDigit(c)
    ensures AllDigits(s + [c]) && Value(s + [c]) == Value(s) * 10 + DigitValue(c)
  {
    assert (s + [c])[..|s|] == s;
  }

  /** A 2024 date whose month and day digits spell `m` and `d`. */
  lemma ShippedDate(date: string, m: nat, d: nat)
    requires |date| == 10 && date[..5] == "2024-" && date[7] == '-'
    requires AllDigits(date[5..7]) && AllDigits(date[8..])
    requires Value(date[5..7]) == m && Value(date[8..]) == d
    requires 1 <= m <= 12 && 1 <= d <= 31
    ensures IsIsoDate(date)
  {
    assert date[..4] == date[..5][..4];
  }
}
