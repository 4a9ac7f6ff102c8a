/** Selectors worked through the model of `parse_episode_list`: the mixed form of
    the usage text (mux-system.py:12-17), and edge cases of the parser (descending
    items, repeated numbers, malformed ranges, empty items). */
module SelectorExamples {

  import opened Wrappers
  import opened Text
  import opened Sorting
  import opened EpisodeSelector

  /** A one-digit item: it strips to itself, contains no separator, and reads as its digit. */
  lemma OneDigit(s: string, n: nat)
    requires |s| == 1 && IsDigit(s[0]) && DigitValue(s[0]) == n
    ensures Strip(s) == s && IsDigits(s) && DigitsValue(s) == n && ',' !in s && '-' !in s
    ensures ExpandItem(s) == Ok([n])
  {
    DigitNotSpace(s[0]);
    StripUnchanged(s);
    assert s[..0] == [];
  }

  /** A one-digit range "a-b". */
  lemma OneDigitRange(a: string, m: nat, b: string, n: nat)
    requires |a| == 1 && IsDigit(a[0]) && DigitValue(a[0]) == m
    requires |b| == 1 && IsDigit(b[0]) && DigitValue(b[0]) == n
    ensures Strip(a + "-" + b) == a + "-" + b && ',' !in a + "-" + b
    ensures ExpandItem(a + "-" + b) == if m <= n then Ok(Interval(m, n)) else Err(RangeStartAfterEnd(a + "-" + b))
  {
    OneDigit(a, m);
    OneDigit(b, n);
    var item := a + "-" + b;
    assert item == a + ['-'] + b;
    assert item[..1] == a && item[2..] == b;
    assert RangeAt(item, 1);
    WellFormedRange(item, 1);
    DigitNotSpace(item[0]);
    DigitNotSpace(item[2]);
    StripUnchanged(item);
  }

  /** Two stripped items without commas, joined by a comma, are the two items. */
  lemma TwoItems(x: string, y: string)
    requires ',' !in x && ',' !in y && Strip(x) == x && Strip(y) == y
    ensures Items(x + "," + y) == [x, y]
  {
    var s := x + "," + y;
    assert s == x + [','] + y;
    SplitTwo(x, ',', y);
    var parts := Split(s, ',');
    assert parts == [x, y];
    var items := Items(s);
    assert |items| == 2;
    assert items[0] == Strip(parts[0]);
    assert items[1] == Strip(parts[1]);
  }

  /** Three stripped items without commas, joined by commas, are the three items. */
  lemma ThreeItems(x: string, y: string, z: string)
    requires ',' !in x && ',' !in y && ',' !in z
    requires Strip(x) == x && Strip(y) == y && Strip(z) == z
    ensures Items(x + "," + y + "," + z) == [x, y, z]
  {
    var s := x + "," + y + "," + z;
    assert s == x + [','] + (y + [','] + z);
    SplitAround(x, ',', y + [','] + z);
    SplitNoSeparator(x, ',');
    SplitTwo(y, ',', z);
    var parts := Split(s, ',');
    assert parts == [x, y, z];
    assert Items(s)[0] == Strip(parts[0]) && Items(s)[1] == Strip(parts[1]);
    assert Items(s)[2] == Strip(parts[2]);
  }

  /** Two items that both expand are the concatenation of their expansions. */
  lemma ExpandTwo(x: string, xs: seq<nat>, y: string, ys: seq<nat>)
    requires ExpandItem(x) == Ok(xs) && ExpandItem(y) == Ok(ys)
    ensures ExpandAll([x, y]) == Ok(xs + ys)
  {
    var none: seq<string>, empty: seq<nat> := [], [];
    ExpandAllStep(none, x);
    assert none + [x] == [x] && empty + xs == xs;
    ExpandAllStep([x], y);
    assert [x] + [y] == [x, y];
  }

  lemma DescendingItems()
    ensures Items("2,1") == ["2", "1"]
  {
    OneDigit("2", 2);
    OneDigit("1", 1);
    assert "2,1" == "2" + "," + "1";
    TwoItems("2", "1");
  }

  lemma DescendingExpansion()
    ensures ExpandAll(["2", "1"]) == Ok([2, 1])
  {
    OneDigit("2", 2);
    OneDigit("1", 1);
    ExpandTwo("2", [2], "1", [1]);
    var two: seq<nat> := [2];
    assert two + [1] == [2, 1];
  }

  lemma DescendingSorted()
    ensures SortAsc([2, 1]) == [1, 2]
  {
    assert multiset([2, 1]) == multiset([1, 2]);
    SortsTo([2, 1], [1, 2]);
  }

  /** "2,1" is [1, 2]: the result is sorted whatever the order of the items. */
  lemma ParseDescending()
    ensures Parse("2,1") == Ok([1, 2])
  {
    DescendingItems();
    DescendingExpansion();
    DescendingSorted();
  }

  /** Sorting gives the one ascending arrangement of the same numbers. */
  lemma SortsTo(xs: seq<nat>, ys: seq<nat>)
    requires Ascending(ys) && multiset(xs) == multiset(ys)
    ensures SortAsc(xs) == ys
  {
    AscendingUnique(SortAsc(xs), ys);
  }

  lemma Range13()
    ensures Strip("1-3") == "1-3" && ',' !in "1-3" && ExpandItem("1-3") == Ok([1, 2, 3])
  {
    OneDigitRange("1", 1, "3", 3);
    assert "1" + "-" + "3" == "1-3";
    IntervalExact(1, 3);
    assert Interval(1, 3) == [1, 2, 3];
  }

  lemma Range79()
    ensures Strip("7-9") == "7-9" && ',' !in "7-9" && ExpandItem("7-9") == Ok([7, 8, 9])
  {
    OneDigitRange("7", 7, "9", 9);
    assert "7" + "-" + "9" == "7-9";
    IntervalExact(7, 9);
    assert Interval(7, 9) == [7, 8, 9];
  }

  lemma DuplicatesItems()
    ensures Items("1-3,2") == ["1-3", "2"]
  {
    Range13();
    OneDigit("2", 2);
    assert "1-3,2" == "1-3" + "," + "2";
    TwoItems("1-3", "2");
  }

  lemma DuplicatesExpansion()
    ensures ExpandAll(["1-3", "2"]) == Ok([1, 2, 3, 2])
  {
    Range13();
    OneDigit("2", 2);
    ExpandTwo("1-3", [1, 2, 3], "2", [2]);
    var xs: seq<nat> := [1, 2, 3];
    assert xs + [2] == [1, 2, 3, 2];
  }

  /** "1-3,2" is [1, 2, 2, 3]: a number named twice is listed twice. */
  lemma ParseDuplicatesKept()
    ensures Parse("1-3,2") == Ok([1, 2, 2, 3])
  {
    DuplicatesItems();
    DuplicatesExpansion();
    DuplicatesSorted();
  }

  lemma DuplicatesSorted()
    ensures SortAsc([1, 2, 3, 2]) == [1, 2, 2, 3]
  {
    assert multiset([1, 2, 3, 2]) == multiset([1, 2, 2, 3]);
    SortsTo([1, 2, 3, 2], [1, 2, 2, 3]);
  }

  /** A three-character range of one-digit bounds strips to itself and has no comma. */
  lemma BareRange(s: string)
    requires |s| == 3 && IsDigit(s[0]) && s[1] == '-' && IsDigit(s[2])
    ensures Strip(s) == s && ',' !in s
  {
    DigitNotSpace(s[0]);
    DigitNotSpace(s[2]);
    StripUnchanged(s);
  }

  lemma MixedItems()
    ensures Items("1-3,5,7-9") == ["1-3", "5", "7-9"]
  {
    BareRange("1-3");
    BareRange("7-9");
    assert Strip("5") == "5" && ',' !in "5" by { OneDigit("5", 5); }
    assert "1-3,5,7-9" == "1-3" + "," + "5" + "," + "7-9";
    ThreeItems("1-3", "5", "7-9");
  }

  lemma MixedPrefix()
    ensures ExpandAll(["1-3", "5"]) == Ok([1, 2, 3, 5])
  {
    assert ExpandItem("1-3") == Ok([1, 2, 3]) by { Range13(); }
    assert ExpandItem("5") == Ok([5]) by { OneDigit("5", 5); }
    ExpandTwo("1-3", [1, 2, 3], "5", [5]);
    var xs: seq<nat> := [1, 2, 3];
    assert xs + [5] == [1, 2, 3, 5];
  }

  lemma MixedExpansion()
    ensures ExpandAll(["1-3", "5", "7-9"]) == Ok([1, 2, 3, 5, 7, 8, 9])
  {
    MixedPrefix();
    Range79();
    ExpandAllStep(["1-3", "5"], "7-9");
    assert ["1-3", "5"] + ["7-9"] == ["1-3", "5", "7-9"];
    var xs: seq<nat> := [1, 2, 3, 5];
    assert xs + [7, 8, 9] == [1, 2, 3, 5, 7, 8, 9];
  }

  /** "1-3,5,7-9" is [1, 2, 3, 5, 7, 8, 9], the mixed form of the usage text. */
  lemma ParseMixed()
    ensures Parse("1-3,5,7-9") == Ok([1, 2, 3, 5, 7, 8, 9])
  {
    MixedItems();
    MixedExpansion();
    MixedSorted();
  }

  lemma MixedSorted()
    ensures SortAsc([1, 2, 3, 5, 7, 8, 9]) == [1, 2, 3, 5, 7, 8, 9]
  {
    SortsTo([1, 2, 3, 5, 7, 8, 9], [1, 2, 3, 5, 7, 8, 9]);
  }

  /** A selector of one item is that item's expansion. */
  lemma OneItem(arg: string)
    requires arg != "all" && ',' !in arg && Strip(arg) == arg
    ensures Parse(arg) == match ExpandItem(arg)
                          case Err(e) => Err(e)
                          case Ok(xs) => Ok(SortAsc(xs))
  {
    SplitNoSeparator(arg, ',');
    var items := Items(arg);
    assert |items| == 1 && items[0] == Strip(arg);
    assert items == [arg];
    var none: seq<string>, empty: seq<nat> := [], [];
    assert ExpandAll(none) == Ok(empty);
    ExpandAllStep(none, arg);
    assert none + [arg] == [arg];
    match ExpandItem(arg)
    case Err(e) =>
    case Ok(xs) => assert empty + xs == xs;
  }

  lemma TwoDashesSplit()
    ensures |Split("1-2-3", '-')| == 3
  {
    assert "1-2-3" == "1" + ['-'] + ("2" + ['-'] + "3");
    SplitAround("1", '-', "2" + ['-'] + "3");
    SplitNoSeparator("1", '-');
    SplitTwo("2", '-', "3");
  }

  /** "1-2-3" has two dashes: invalid range. */
  lemma ParseTwoDashes()
    ensures Parse("1-2-3") == Err(InvalidRange("1-2-3"))
  {
    var item := "1-2-3";
    TwoDashesSplit();
    assert item[1] == '-' && ',' !in item;
    StripUnchanged(item);
    OneItem(item);
  }

  /** "1-x" has a bound that is not a number: invalid range, not a silent coercion. */
  lemma ParseBadBound()
    ensures Parse("1-x") == Err(InvalidRange("1-x"))
  {
    var item := "1-x";
    assert item == "1" + ['-'] + "x";
    SplitTwo("1", '-', "x");
    StripUnchanged("x");
    assert !IsDigits(Strip("x"));
    assert item[1] == '-' && ',' !in item;
    StripUnchanged(item);
    OneItem(item);
  }

  /** "-5" has no start bound: invalid range, so no negative episode is produced. */
  lemma ParseNegative()
    ensures Parse("-5") == Err(InvalidRange("-5"))
  {
    var item := "-5";
    assert item == [] + ['-'] + "5";
    SplitTwo([], '-', "5");
    assert Strip([]) == [];
    assert item[0] == '-' && ',' !in item;
    StripUnchanged(item);
    OneItem(item);
  }

  /** "3-1" runs backwards: the start-after-end error. */
  lemma ParseBackwards()
    ensures Parse("3-1") == Err(RangeStartAfterEnd("3-1"))
  {
    OneDigitRange("3", 3, "1", 1);
    assert "3-1" == "3" + "-" + "1";
    OneItem("3-1");
  }

  /** "1,x,3-1" has two bad items; the error names the first one, "x". */
  lemma ParseFirstBadItemReported()
    ensures Parse("1,x,3-1") == Err(InvalidEpisodeNumber("x"))
  {
    OneDigit("1", 1);
    StripUnchanged("x");
    assert ExpandItem("x") == Err(InvalidEpisodeNumber("x"));
    OneDigitRange("3", 3, "1", 1);
    assert "1,x,3-1" == "1" + "," + "x" + "," + "3-1";
    ThreeItems("1", "x", "3-1");
    assert FirstFailure(["1", "x", "3-1"], 1);
    ParseFirstError("1,x,3-1", 1);
  }

  /** "1,,2" has an empty item between the commas: invalid episode number "". */
  lemma ParseEmptyItem()
    ensures Parse("1,,2") == Err(InvalidEpisodeNumber(""))
  {
    OneDigit("1", 1);
    OneDigit("2", 2);
    assert Strip([]) == [];
    assert "1,,2" == "1" + "," + [] + "," + "2";
    ThreeItems("1", [], "2");
    assert FirstFailure(["1", [], "2"], 1);
    ParseFirstError("1,,2", 1);
  }
}
