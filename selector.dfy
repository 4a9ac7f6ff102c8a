/** `parse_episode_list`: turns an episode selector such as "1-3,5,7-9" into the
    ascending list of episode numbers it names, or rejects it with one of three
    errors. The function `Parse` is the specification; the method
    `ParseEpisodeList` is the script's loop, proved to compute it. */
module EpisodeSelector {

  import opened Wrappers
  import opened Text
  import opened Sorting

  /** The three `ValueError`s the parser raises; each carries the stripped item. */
  datatype ParseError =
    | InvalidRange(item: string)          // an item with '-' that is not "digits-digits"
    | RangeStartAfterEnd(item: string)    // "A-B" with A > B
    | InvalidEpisodeNumber(item: string)  // an item without '-' that is not all digits

  /** `range(lo, hi + 1)`. */
  function Interval(lo: nat, hi: nat): seq<nat>
    decreases hi + 1 - lo
  {
    if lo > hi then [] else [lo] + Interval(lo + 1, hi)
  }

  /** `range(lo, hi + 1)` holds exactly the integers lo..hi, in order, hi - lo + 1 of them. */
  lemma {:induction false} IntervalExact(lo: nat, hi: nat)
    requires lo <= hi
    ensures |Interval(lo, hi)| == hi - lo + 1
    ensures forall k :: 0 <= k < |Interval(lo, hi)| ==> Interval(lo, hi)[k] == lo + k
    decreases hi - lo
  {
    if lo < hi {
      IntervalExact(lo + 1, hi);
    }
  }

  // ---------------------------------------------------------------------------
  // One comma-separated item (already stripped)
  // ---------------------------------------------------------------------------

  /** The numbers one stripped item stands for, or the error it raises. */
  function ExpandItem(item: string): Result<seq<nat>, ParseError> {
    if '-' in item then
      var parts := Split(item, '-');
      if |parts| != 2 || !IsDigits(Strip(parts[0])) || !IsDigits(Strip(parts[1])) then
        Err(InvalidRange(item))
      else
        var start := DigitsValue(Strip(parts[0]));
        var end := DigitsValue(Strip(parts[1]));
        if start > end then Err(RangeStartAfterEnd(item)) else Ok(Interval(start, end))
    else if IsDigits(item) then
      Ok([DigitsValue(item)])
    else
      Err(InvalidEpisodeNumber(item))
  }

  /** `item` is "A-B" with the '-' at index k: exactly one '-', and each side is
      digits once surrounding whitespace is stripped. */
  predicate RangeAt(item: string, k: int) {
    0 <= k < |item| && item[k] == '-'
    && '-' !in item[..k] && '-' !in item[k + 1..]
    && IsDigits(Strip(item[..k])) && IsDigits(Strip(item[k + 1..]))
  }

  /** A range "A-B" with A <= B expands to exactly A, A+1, ..., B. Spaces around
      either bound are allowed, since each bound is stripped before it is read. */
  lemma RangeExpands(a: string, b: string)
    requires '-' !in a && '-' !in b && IsDigits(Strip(a)) && IsDigits(Strip(b))
    requires DigitsValue(Strip(a)) <= DigitsValue(Strip(b))
    ensures ExpandItem(a + "-" + b).Ok?
    ensures var lo, hi, r := DigitsValue(Strip(a)), DigitsValue(Strip(b)), ExpandItem(a + "-" + b).value;
      |r| == hi - lo + 1 && forall k :: 0 <= k < |r| ==> r[k] == lo + k
  {
    var item := a + "-" + b;
    SplitTwo(a, '-', b);
    assert item[|a|] == '-';
    IntervalExact(DigitsValue(Strip(a)), DigitsValue(Strip(b)));
  }

  /** A range "A-B" whose bounds are both numbers but with A > B is the
      start-after-end error. */
  lemma RangeReversed(a: string, b: string)
    requires '-' !in a && '-' !in b && IsDigits(Strip(a)) && IsDigits(Strip(b))
    requires DigitsValue(Strip(a)) > DigitsValue(Strip(b))
    ensures ExpandItem(a + "-" + b) == Err(RangeStartAfterEnd(a + "-" + b))
  {
    SplitTwo(a, '-', b);
    assert (a + "-" + b)[|a|] == '-';
  }

  /** An item with a '-' that is not "digits-digits" (two dashes, a missing or
      non-numeric bound: "1-2-3", "-5", "1-", "1-x") is the invalid-range error.
      In particular a negative number is never produced. */
  lemma MalformedRange(item: string)
    requires '-' in item
    requires forall k :: !RangeAt(item, k)
    ensures ExpandItem(item) == Err(InvalidRange(item))
  {
    var parts := Split(item, '-');
    SplitJoin(item, '-');
    if |parts| == 2 && IsDigits(Strip(parts[0])) && IsDigits(Strip(parts[1])) {
      assert item == parts[0] + ['-'] + parts[1];
      var k := |parts[0]|;
      assert item[..k] == parts[0] && item[k + 1..] == parts[1];
      assert RangeAt(item, k);
    }
  }

  /** A well-formed range is never the invalid-range error: it either expands or
      is the start-after-end error. */
  lemma WellFormedRange(item: string, k: int)
    requires RangeAt(item, k)
    ensures ExpandItem(item) == (
      var lo, hi := DigitsValue(Strip(item[..k])), DigitsValue(Strip(item[k + 1..]));
      if lo <= hi then Ok(Interval(lo, hi)) else Err(RangeStartAfterEnd(item)))
  {
    assert item == item[..k] + "-" + item[k + 1..];
    SplitTwo(item[..k], '-', item[k + 1..]);
  }

  /** An item without '-' made of digits is that one number, leading zeros
      ignored ("07" is 7). */
  lemma SingleNumber(item: string)
    requires '-' !in item && IsDigits(item)
    ensures ExpandItem(item) == Ok([DigitsValue(item)])
    ensures ExpandItem("0" + item) == Ok([DigitsValue(item)])
  {
    LeadingZeroIgnored(item);
    assert '-' !in "0" + item;
  }

  /** Any other item without '-', the empty item of ",," or of a trailing comma
      included, is the invalid-number error. */
  lemma NotANumber(item: string)
    requires '-' !in item && !IsDigits(item)
    ensures ExpandItem(item) == Err(InvalidEpisodeNumber(item))
  {
  }

  /** The empty item, as between the commas of ",,", is the invalid-number error. */
  lemma EmptyItemNotANumber()
    ensures ExpandItem("") == Err(InvalidEpisodeNumber(""))
  {
    NotANumber("");
  }

  /** Whatever an item raises names the item. */
  lemma ErrorNamesItem(item: string)
    ensures ExpandItem(item).Err? ==> ExpandItem(item).error.item == item
  {
  }

  /** Every item that parses stands for at least one number. */
  lemma ExpandedNonEmpty(item: string)
    requires ExpandItem(item).Ok?
    ensures ExpandItem(item).value != []
  {
    if '-' in item {
      var parts := Split(item, '-');
      IntervalExact(DigitsValue(Strip(parts[0])), DigitsValue(Strip(parts[1])));
    }
  }

  // ---------------------------------------------------------------------------
  // The whole selector
  // ---------------------------------------------------------------------------

  /** `[s.strip() for s in arg.split(",")]`: the items the loop visits, in order. */
  function Items(arg: string): (items: seq<string>)
    ensures |items| == |Split(arg, ',')|
  {
    var parts := Split(arg, ',');
    seq(|parts|, i requires 0 <= i < |parts| => Strip(parts[i]))
  }

  /** Items expanded left to right and concatenated; the first item that fails
      decides the error. */
  function ExpandAll(items: seq<string>): Result<seq<nat>, ParseError>
    decreases |items|
  {
    if items == [] then Ok([])
    else
      match ExpandAll(items[..|items| - 1])
      case Err(e) => Err(e)
      case Ok(prefix) =>
        match ExpandItem(items[|items| - 1])
        case Err(e) => Err(e)
        case Ok(xs) => Ok(prefix + xs)
  }

  /** `parse_episode_list(arg)`: "all" is the empty list (discover the episodes
      elsewhere); otherwise the items' numbers, sorted, duplicates kept. */
  function Parse(arg: string): Result<seq<nat>, ParseError> {
    if arg == "all" then Ok([])
    else
      match ExpandAll(Items(arg))
      case Err(e) => Err(e)
      case Ok(xs) => Ok(SortAsc(xs))
  }

  /** The script's loop: walks the comma-separated items, extends the episode
      list item by item, stops at the first bad item, and sorts at the end. */
  method ParseEpisodeList(episodeArg: string) returns (r: Result<seq<nat>, ParseError>)
    ensures r == Parse(episodeArg)
  {
    if episodeArg == "all" {
      return Ok([]);
    }
    var episodes: seq<nat> := [];
    var parts := Split(episodeArg, ',');
    ghost var items := Items(episodeArg);
    for i := 0 to |parts|
      invariant ExpandAll(items[..i]) == Ok(episodes)
    {
      var item := Strip(parts[i]);
      assert items[..i + 1][..i] == items[..i] && items[i] == item;
      if '-' in item {
        var rangeParts := Split(item, '-');
        if |rangeParts| != 2 || !IsDigits(Strip(rangeParts[0])) || !IsDigits(Strip(rangeParts[1])) {
          ExpandAllKeepsError(items, i + 1);
          return Err(InvalidRange(item));
        }
        var start := DigitsValue(Strip(rangeParts[0]));
        var end := DigitsValue(Strip(rangeParts[1]));
        if start > end {
          ExpandAllKeepsError(items, i + 1);
          return Err(RangeStartAfterEnd(item));
        }
        episodes := episodes + Interval(start, end);
      } else if IsDigits(item) {
        episodes := episodes + [DigitsValue(item)];
      } else {
        ExpandAllKeepsError(items, i + 1);
        return Err(InvalidEpisodeNumber(item));
      }
    }
    assert items[..|parts|] == items;
    return Ok(SortAsc(episodes));
  }

  /** One more step of ExpandAll: the list so far, then the next item. */
  lemma ExpandAllStep(items: seq<string>, item: string)
    ensures ExpandAll(items + [item]) == (
      match ExpandAll(items)
      case Err(e) => Err(e)
      case Ok(prefix) =>
        match ExpandItem(item)
        case Err(e) => Err(e)
        case Ok(xs) => Ok(prefix + xs))
  {
    assert (items + [item])[..|items|] == items;
  }

  /** Once a prefix of the items has failed, the whole list fails the same way. */
  lemma {:induction false} ExpandAllKeepsError(items: seq<string>, n: nat)
    requires n <= |items| && ExpandAll(items[..n]).Err?
    ensures ExpandAll(items) == ExpandAll(items[..n])
    decreases |items| - n
  {
    if n < |items| {
      var init := items[..|items| - 1];
      assert init[..n] == items[..n];
      ExpandAllKeepsError(init, n);
    } else {
      assert items[..n] == items;
    }
  }

  // ---------------------------------------------------------------------------
  // What a selector means
  // ---------------------------------------------------------------------------

  /** The bag of numbers an item stands for (empty for an item that fails). */
  function ItemBag(item: string): multiset<nat> {
    match ExpandItem(item)
    case Ok(xs) => multiset(xs)
    case Err(_) => multiset{}
  }

  /** The bag of numbers a list of items stands for: the sum, not the union,
      of the items' bags, so a number two items share is counted twice. */
  function Bag(items: seq<string>): multiset<nat>
    decreases |items|
  {
    if items == [] then multiset{} else Bag(items[..|items| - 1]) + ItemBag(items[|items| - 1])
  }

  /** Item k is the first item that fails. */
  predicate FirstFailure(items: seq<string>, k: int) {
    0 <= k < |items| && ExpandItem(items[k]).Err?
    && forall j :: 0 <= j < k ==> ExpandItem(items[j]).Ok?
  }

  /** The items succeed together exactly when each succeeds, and then they stand
      for the sum of their bags. */
  lemma {:induction false} ExpandAllOk(items: seq<string>)
    ensures ExpandAll(items).Ok? <==> forall k :: 0 <= k < |items| ==> ExpandItem(items[k]).Ok?
    ensures ExpandAll(items).Ok? ==> multiset(ExpandAll(items).value) == Bag(items)
    decreases |items|
  {
    if items != [] {
      var init := items[..|items| - 1];
      ExpandAllOk(init);
      assert forall k :: 0 <= k < |init| ==> init[k] == items[k];
    }
  }

  /** The error of a list of items is the error of its first failing item. */
  lemma ExpandAllFirstError(items: seq<string>, k: int)
    requires FirstFailure(items, k)
    ensures ExpandAll(items) == Err(ExpandItem(items[k]).error)
  {
    var head := items[..k];
    ExpandAllOk(head);
    assert items[..k + 1][..k] == head;
    ExpandAllKeepsError(items, k + 1);
  }

  /** On success the result is ascending and holds every item's numbers, with
      duplicates across items kept; it succeeds exactly when every item does. */
  lemma ParseOk(arg: string)
    requires arg != "all"
    ensures Parse(arg).Ok? <==> forall k :: 0 <= k < |Items(arg)| ==> ExpandItem(Items(arg)[k]).Ok?
    ensures Parse(arg).Ok? ==> Ascending(Parse(arg).value) && multiset(Parse(arg).value) == Bag(Items(arg))
  {
    ExpandAllOk(Items(arg));
  }

  /** A selector with a bad item fails with the error of the first bad item,
      and that error names the (stripped) item. */
  lemma ParseFirstError(arg: string, k: int)
    requires arg != "all" && FirstFailure(Items(arg), k)
    ensures Parse(arg) == Err(ExpandItem(Items(arg)[k]).error)
    ensures Parse(arg).error.item == Items(arg)[k]
  {
    ExpandAllFirstError(Items(arg), k);
  }

  /** The order of the items does not matter on success: any rearrangement of the
      same items ("2,1" and "1,2") gives the same sorted list. */
  lemma ParseOrderIndependent(arg1: string, arg2: string)
    requires arg1 != "all" && arg2 != "all"
    requires multiset(Items(arg1)) == multiset(Items(arg2))
    requires Parse(arg1).Ok?
    ensures Parse(arg2) == Parse(arg1)
  {
    var items1, items2 := Items(arg1), Items(arg2);
    ParseOk(arg1);
    ParseOk(arg2);
    forall k | 0 <= k < |items2| ensures ExpandItem(items2[k]).Ok? {
      assert items2[k] in multiset(items1);
      var j :| 0 <= j < |items1| && items1[j] == items2[k];
    }
    BagPermutation(items1, items2);
    AscendingUnique(Parse(arg1).value, Parse(arg2).value);
  }

  lemma {:induction false} BagAppend(a: seq<string>, b: seq<string>)
    ensures Bag(a + b) == Bag(a) + Bag(b)
    decreases |b|
  {
    if b == [] {
      assert a + b == a;
    } else {
      var b' := b[..|b| - 1];
      assert (a + b)[..|a + b| - 1] == a + b';
      BagAppend(a, b');
    }
  }

  /** Rearranging the items leaves their bag unchanged. */
  lemma {:induction false} BagPermutation(a: seq<string>, b: seq<string>)
    requires multiset(a) == multiset(b)
    ensures Bag(a) == Bag(b)
    decreases |a|
  {
    if a != [] {
      var last := a[|a| - 1];
      var init := a[..|a| - 1];
      assert a == init + [last];
      assert last in multiset(b);
      var j :| 0 <= j < |b| && b[j] == last;
      var before, after := b[..j], b[j + 1..];
      assert b == before + [last] + after;
      RemoveOne(init, before, last, after);
      BagPermutation(init, before + after);
      BagSplice(before, last, after);
      BagAppend(init, [last]);
      BagSingle(last);
    }
  }

  /** Taking the same item out of two lists with the same items leaves lists with the same items. */
  lemma RemoveOne(init: seq<string>, before: seq<string>, x: string, after: seq<string>)
    requires multiset(init + [x]) == multiset(before + [x] + after)
    ensures multiset(init) == multiset(before + after)
  {
    forall y ensures multiset(init)[y] == multiset(before + after)[y] {
      assert multiset(init + [x])[y] == multiset(init)[y] + multiset{x}[y];
      assert multiset(before + [x] + after)[y] == multiset(before)[y] + multiset{x}[y] + multiset(after)[y];
      assert multiset(before + after)[y] == multiset(before)[y] + multiset(after)[y];
    }
  }

  lemma BagSingle(x: string)
    ensures Bag([x]) == ItemBag(x)
  {
    assert [x][..0] == [];
  }

  lemma BagSplice(before: seq<string>, x: string, after: seq<string>)
    ensures Bag(before + [x] + after) == Bag(before + after) + ItemBag(x)
  {
    BagAppend(before + [x], after);
    BagAppend(before, [x]);
    BagAppend(before, after);
    BagSingle(x);
  }

  /** The empty list means "all" and nothing else: every other selector either
      fails or names at least one episode. */
  lemma ParseEmptyIffAll(arg: string)
    ensures Parse(arg) == Ok([]) <==> arg == "all"
  {
    if arg != "all" {
      var items := Items(arg);
      match ExpandAll(items)
      case Err(_) =>
      case Ok(xs) =>
        ExpandAllOk(items);
        ExpandedNonEmpty(items[|items| - 1]);
        assert |SortAsc(xs)| == |multiset(xs)| == |xs| > 0;
    }
  }
}
