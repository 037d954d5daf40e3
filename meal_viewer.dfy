/**
 * The menu transform of the MealViewer client (mealViewerService.ts).
 *
 * The response nests schedules, then menu blocks, then cafeteria lines, then
 * food items. Each schedule becomes a daily menu: its date (the part of
 * `dateFull` before the first `T`) and the names of its entrée items in
 * nesting order. The HTTP request around the transform is not modelled; the
 * parsed response body is a parameter.
 */
module MealViewer {
  import opened Wrappers
  import opened Text

  datatype MenuItem = MenuItem(itemName: string, itemType: string)

  /** `cafeteriaLineList.data[k]`: a line and its `foodItemList.data`. */
  datatype CafeteriaLine = CafeteriaLine(foodItems: seq<MenuItem>)

  /** A menu block with its `cafeteriaLineList.data`. */
  datatype MenuBlock = MenuBlock(blockName: string, lines: seq<CafeteriaLine>)

  /** A schedule: `dateInformation.dateFull` and its `menuBlocks`. */
  datatype MenuSchedule = MenuSchedule(dateFull: string, menuBlocks: seq<MenuBlock>)

  /** The response body; `menuSchedules` may be missing. */
  datatype MenuResponse = MenuResponse(menuSchedules: Option<seq<MenuSchedule>>)

  /** One entry of the transformed result. */
  datatype DailyMenu = DailyMenu(date: string, items: seq<string>)

  /** The calendar date the range strings are built from; `monthIndex` counts from 0 as `getMonth()` does. */
  datatype CalendarDate = CalendarDate(year: nat, monthIndex: nat, day: nat)

  const NoSchedulesError: string := "No menu schedules found in the response"

  const EntreeType: string := "ENTREES"

  /** `toUpperCase` on one character, for the ASCII letters. */
  function UpperAscii(c: char): (u: char)
    ensures 'a' <= c <= 'z' ==> u as int == c as int - 32
    ensures !('a' <= c <= 'z') ==> u == c
  {
    if 'a' <= c <= 'z' then (c as int - 32) as char else c
  }

  function ToUpper(s: string): (r: string)
    ensures |r| == |s|
  {
    seq(|s|, k requires 0 <= k < |s| => UpperAscii(s[k]))
  }

  /** `item.item_Type.toUpperCase() === "ENTREES"`. */
  predicate IsEntree(item: MenuItem)
    ensures IsEntree(item) ==> |item.itemType| == |EntreeType|
  {
    ToUpper(item.itemType) == EntreeType
  }

  /**
   * The type test ignores letter case and nothing else: an item is an entrée
   * exactly when its type has seven characters, each the letter of `ENTREES`
   * at that place in upper or lower case.
   */
  lemma EntreeIgnoresCase(item: MenuItem)
    ensures IsEntree(item) <==>
              && |item.itemType| == |EntreeType|
              && forall k :: 0 <= k < |EntreeType| ==>
                   item.itemType[k] == EntreeType[k] || item.itemType[k] as int == EntreeType[k] as int + 32
  {
    var t := item.itemType;
    if |t| == |EntreeType| {
      forall k | 0 <= k < |t|
        ensures ToUpper(t)[k] == EntreeType[k] <==> t[k] == EntreeType[k] || t[k] as int == EntreeType[k] as int + 32
      {
        assert 'A' <= EntreeType[k] <= 'Z';
      }
    }
  }

  /** Five spellings the test accepts or rejects. */
  lemma EntreeSpellings()
    ensures IsEntree(MenuItem("Chicken Nuggets", "Entrees"))
    ensures IsEntree(MenuItem("Pizza", "entrees"))
    ensures IsEntree(MenuItem("Tacos", "ENTREES"))
    ensures !IsEntree(MenuItem("Corn", "Vegetables"))
    ensures !IsEntree(MenuItem("Burger", "Entree"))
  {
    assert ToUpper("Entrees") == EntreeType;
    assert ToUpper("entrees") == EntreeType;
    assert ToUpper("ENTREES") == EntreeType;
    assert |ToUpper("Entree")| == 6;
    assert ToUpper("Vegetables")[0] == 'V';
  }

  /** `filter(isEntree).map(item => item.item_Name)` over one list of food items. */
  function Entrees(items: seq<MenuItem>): (r: seq<string>)
    ensures |r| <= |items|
  {
    if items == [] then []
    else
      var last := items[|items| - 1];
      Entrees(items[..|items| - 1]) + (if IsEntree(last) then [last.itemName] else [])
  }

  /** The inner `flatMap` over the cafeteria lines of a block. */
  function LineEntrees(lines: seq<CafeteriaLine>): (r: seq<string>)
    ensures |r| <= |LineItems(lines)|
  {
    if lines == [] then [] else LineEntrees(lines[..|lines| - 1]) + Entrees(lines[|lines| - 1].foodItems)
  }

  /** The outer `flatMap` over the menu blocks of a schedule (`menuItems`). */
  function BlockEntrees(blocks: seq<MenuBlock>): (r: seq<string>)
    ensures |r| <= |AllItems(blocks)|
  {
    if blocks == [] then [] else BlockEntrees(blocks[..|blocks| - 1]) + LineEntrees(blocks[|blocks| - 1].lines)
  }

  /** Every food item of the lines, line after line. */
  function LineItems(lines: seq<CafeteriaLine>): seq<MenuItem> {
    if lines == [] then [] else LineItems(lines[..|lines| - 1]) + lines[|lines| - 1].foodItems
  }

  /** Every food item of a schedule in nesting order: block, then line, then item. */
  function AllItems(blocks: seq<MenuBlock>): seq<MenuItem> {
    if blocks == [] then [] else AllItems(blocks[..|blocks| - 1]) + LineItems(blocks[|blocks| - 1].lines)
  }

  /** The entrée filter distributes over concatenation. */
  lemma {:induction false} EntreesAppend(a: seq<MenuItem>, b: seq<MenuItem>)
    ensures Entrees(a + b) == Entrees(a) + Entrees(b)
    decreases |b|
  {
    if b == [] {
      assert a + b == a;
    } else {
      var p := b[..|b| - 1];
      EntreesAppend(a, p);
      assert (a + b)[..|a + b| - 1] == a + p;
    }
  }

  lemma {:induction false} LineEntreesFlatten(lines: seq<CafeteriaLine>)
    ensures LineEntrees(lines) == Entrees(LineItems(lines))
  {
    if lines != [] {
      var p := lines[..|lines| - 1];
      LineEntreesFlatten(p);
      EntreesAppend(LineItems(p), lines[|lines| - 1].foodItems);
    }
  }

  /**
   * A schedule's entrées are the entrée filter of its items flattened in
   * nesting order: block order, then line order, then item order are kept.
   */
  lemma {:induction false} BlockEntreesFlatten(blocks: seq<MenuBlock>)
    ensures BlockEntrees(blocks) == Entrees(AllItems(blocks))
  {
    if blocks != [] {
      var p := blocks[..|blocks| - 1];
      BlockEntreesFlatten(p);
      LineEntreesFlatten(blocks[|blocks| - 1].lines);
      EntreesAppend(AllItems(p), LineItems(blocks[|blocks| - 1].lines));
    }
  }

  /** A name is listed exactly when some item carrying it is an entrée. */
  lemma {:induction false} EntreesMembers(items: seq<MenuItem>, name: string)
    ensures name in Entrees(items) <==> exists item :: item in items && IsEntree(item) && item.itemName == name
  {
    if items != [] {
      var p := items[..|items| - 1];
      var last := items[|items| - 1];
      EntreesMembers(p, name);
      assert items == p + [last];
      if name in Entrees(p) {
        var item :| item in p && IsEntree(item) && item.itemName == name;
        assert item in items;
      }
    }
  }

  /** `schedule.dateInformation.dateFull.split("T")[0]`. */
  function DatePart(dateFull: string): (r: string)
    ensures |r| <= |dateFull| && r == dateFull[..|r|] && 'T' !in r
    ensures |r| == |dateFull| || dateFull[|r|] == 'T'
  {
    Before(dateFull, 'T')
  }

  /** A timestamp loses its time part; a plain date is kept whole. */
  lemma DatePartOfTimestamp(date: string, time: string)
    requires 'T' !in date
    ensures DatePart(date + "T" + time) == date
    ensures DatePart(date) == date
  {
    SplitAtFirst(date, 'T', time);
    BeforeWithout(date, 'T');
  }

  /** The `map` callback: one schedule to its daily menu. */
  function ProcessSchedule(schedule: MenuSchedule): (r: DailyMenu)
    ensures |r.date| <= |schedule.dateFull| && r.date == schedule.dateFull[..|r.date|] && 'T' !in r.date
    ensures |r.items| <= |AllItems(schedule.menuBlocks)|
  {
    DailyMenu(DatePart(schedule.dateFull), BlockEntrees(schedule.menuBlocks))
  }

  /**
   * The transform of `fetchMenuData`: a body without `menuSchedules` is an
   * error; otherwise one daily menu per schedule, in schedule order.
   */
  function ProcessResponse(body: Option<MenuResponse>): (r: Result<seq<DailyMenu>, string>)
    ensures r.Failure? <==> body.None? || body.value.menuSchedules.None?
    ensures r.Failure? ==> r.error == NoSchedulesError
    ensures r.Success? ==>
              var schedules := body.value.menuSchedules.value;
              && |r.value| == |schedules|
              && forall k :: 0 <= k < |schedules| ==> r.value[k] == ProcessSchedule(schedules[k])
  {
    if body.None? || body.value.menuSchedules.None? then Failure(NoSchedulesError)
    else
      var schedules := body.value.menuSchedules.value;
      Success(seq(|schedules|, k requires 0 <= k < |schedules| => ProcessSchedule(schedules[k])))
  }

  /**
   * `fetchMenuData` around the request: a failed request re-raises its
   * error unchanged, a received body goes through the transform.
   */
  function FetchMenuData(reply: Result<Option<MenuResponse>, string>): (r: Result<seq<DailyMenu>, string>)
    ensures reply.Failure? ==> r == Failure(reply.error)
    ensures reply.Success? ==> r == ProcessResponse(reply.value)
  {
    if reply.Failure? then Failure(reply.error) else ProcessResponse(reply.value)
  }

  /**
   * What each daily menu holds: the date cut at the first `T`, and exactly
   * the names of the schedule's entrée items, in nesting order, never more
   * of them than the schedule has food items.
   */
  lemma DailyMenuContents(schedule: MenuSchedule)
    ensures var m := ProcessSchedule(schedule);
            && |m.date| <= |schedule.dateFull| && m.date == schedule.dateFull[..|m.date|] && 'T' !in m.date
            && (|m.date| == |schedule.dateFull| || schedule.dateFull[|m.date|] == 'T')
            && m.items == Entrees(AllItems(schedule.menuBlocks))
            && |m.items| <= |AllItems(schedule.menuBlocks)|
            && forall name :: name in m.items <==>
                 exists item :: item in AllItems(schedule.menuBlocks) && IsEntree(item) && item.itemName == name
  {
    BlockEntreesFlatten(schedule.menuBlocks);
    forall name {
      EntreesMembers(AllItems(schedule.menuBlocks), name);
    }
  }

  /** An empty schedule list is not an error: it gives an empty result. */
  lemma EmptySchedules()
    ensures ProcessResponse(Some(MenuResponse(Some([])))) == Success([])
    ensures ProcessResponse(Some(MenuResponse(None))) == Failure(NoSchedulesError)
    ensures ProcessResponse(None) == Failure(NoSchedulesError)
  {
  }

  /** `${month + 1}-${day}-${year}`: decimal numbers, no zero padding, month counted from 1. */
  function RangeDateString(d: CalendarDate): (r: string)
    ensures |r| >= 5 && r[0] != '0'
  {
    NatToString(d.monthIndex + 1) + "-" + NatToString(d.day) + "-" + NatToString(d.year)
  }

  /** Reads `M-D-Y` back: three unpadded decimal numbers separated by single dashes. */
  function ParseRangeDate(s: string): (r: Option<(nat, nat, nat)>)
    ensures r.Some? ==> '-' in s
  {
    var month := Before(s, '-');
    var rest := After(s, '-');
    var day := Before(rest, '-');
    var year := After(rest, '-');
    if |month| < |s| && |day| < |rest| && ParseNat(month).Some? && ParseNat(day).Some? && ParseNat(year).Some?
    then Some((ParseNat(month).value, ParseNat(day).value, ParseNat(year).value))
    else None
  }

  /** Any three unpadded numerals joined by dashes read back as their three values. */
  lemma ParseRangeParts(m: string, dd: string, y: string)
    requires Canonical(m) && Canonical(dd) && Canonical(y)
    ensures ParseRangeDate(m + "-" + dd + "-" + y) == Some((DigitsValue(m), DigitsValue(dd), DigitsValue(y)))
  {
    DashSplit(m, dd, y);
    ParseNatOfCanonical(m);
    ParseNatOfCanonical(dd);
    ParseNatOfCanonical(y);
  }

  /** Splitting `m-dd-y` at its dashes gives back the three parts when the first two are digits. */
  lemma DashSplit(m: string, dd: string, y: string)
    requires AllDigits(m) && AllDigits(dd)
    ensures Before(m + "-" + dd + "-" + y, '-') == m
    ensures After(m + "-" + dd + "-" + y, '-') == dd + ['-'] + y
    ensures Before(dd + ['-'] + y, '-') == dd && After(dd + ['-'] + y, '-') == y
  {
    var s, rest := m + "-" + dd + "-" + y, dd + ['-'] + y;
    assert s == m + ['-'] + rest;
    DigitsHaveNo(m, '-');
    DigitsHaveNo(dd, '-');
    SplitAtFirst(m, '-', rest);
    SplitAtFirst(dd, '-', y);
  }

  /** The range string carries the month counted from 1, the day and the year, and nothing else. */
  lemma RangeDateRoundTrip(d: CalendarDate)
    ensures ParseRangeDate(RangeDateString(d)) == Some((d.monthIndex + 1, d.day, d.year))
  {
    var m, dd, y := NatToString(d.monthIndex + 1), NatToString(d.day), NatToString(d.year);
    assert RangeDateString(d) == m + "-" + dd + "-" + y;
    ParseRangeParts(m, dd, y);
    DigitsValueOfNatToString(d.monthIndex + 1);
    DigitsValueOfNatToString(d.day);
    DigitsValueOfNatToString(d.year);
  }

  /**
   * The reader accepts nothing but range strings: a text that reads as a
   * date's month, day and year is that date's range string, so no padded
   * or otherwise differently written text passes.
   */
  lemma RangeDateCanonical(s: string, d: CalendarDate)
    requires ParseRangeDate(s) == Some((d.monthIndex + 1, d.day, d.year))
    ensures s == RangeDateString(d)
  {
    var month, rest := Before(s, '-'), After(s, '-');
    var day, year := Before(rest, '-'), After(rest, '-');
    SplitBack(s, '-');
    SplitBack(rest, '-');
    assert month == NatToString(d.monthIndex + 1);
    assert day == NatToString(d.day);
    assert year == NatToString(d.year);
    JoinAtDashes(s, month, rest, day, year);
  }

  lemma JoinAtDashes(s: string, month: string, rest: string, day: string, year: string)
    requires s == month + ['-'] + rest && rest == day + ['-'] + year
    ensures s == month + "-" + day + "-" + year
  {
  }

  /** Distinct dates give distinct range strings. */
  lemma RangeDateInjective(a: CalendarDate, b: CalendarDate)
    requires RangeDateString(a) == RangeDateString(b)
    ensures a == b
  {
    RangeDateRoundTrip(a);
    RangeDateRoundTrip(b);
  }

  /** March 5th, 2024 (month index 2) is written `3-5-2024`. */
  lemma RangeDateExample()
    ensures RangeDateString(CalendarDate(2024, 2, 5)) == "3-5-2024"
  {
    assert NatToString(2024) == NatToString(202) + ['4'];
    assert NatToString(202) == NatToString(20) + ['2'];
    assert NatToString(20) == NatToString(2) + ['0'];
  }
}
