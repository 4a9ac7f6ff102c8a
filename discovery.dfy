/** The "all" mode of the script: episode numbers read off subtitle file stems with
    `re.compile(r".*?(\d+).*").match(stem)`, collected into a set and sorted. */
module EpisodeDiscovery {

  import opened Wrappers
  import opened Text
  import opened Sorting

  /** The maximal run of digits at the start of `s`. */
  function LeadingDigits(s: string): (d: string)
    ensures |d| <= |s| && d == s[..|d|] && AllDigits(d)
    ensures |d| == |s| || !IsDigit(s[|d|])
  {
    if s != [] && IsDigit(s[0]) then [s[0]] + LeadingDigits(s[1..]) else []
  }

  /** A run of digits that the next character ends is the leading run. */
  lemma {:induction false} LeadingDigitsOfRun(s: string, j: int)
    requires 0 <= j <= |s| && AllDigits(s[..j]) && (j == |s| || !IsDigit(s[j]))
    ensures LeadingDigits(s) == s[..j]
  {
    if j > 0 {
      assert IsDigit(s[..j][0]);
      var rest := s[1..][..j - 1];
      assert rest == s[..j][1..];
      LeadingDigitsOfRun(s[1..], j - 1);
      assert s[..j] == [s[0]] + rest;
    }
  }

  /** `int(m.group(1))` where `m = re.match(r".*?(\d+).*", stem)`, or None when
      there is no match. The lazy `.*?` stops at the first digit, `\d+` takes the
      whole run of digits there; `.` does not match a newline, so a newline
      before the first digit means no match. */
  function EpisodeNumber(stem: string): Option<nat> {
    if stem == [] then None
    else if IsDigit(stem[0]) then Some(DigitsValue(LeadingDigits(stem)))
    else if stem[0] == '\n' then None
    else EpisodeNumber(stem[1..])
  }

  /** The regular expression matches `stem` with group 1 spanning stem[i..j]: what
      comes before holds no digit and no newline, and stem[i..j] is a maximal run
      of digits. */
  predicate MatchesAt(stem: string, i: int, j: int) {
    0 <= i < j <= |stem|
    && (forall k :: 0 <= k < i ==> !IsDigit(stem[k]) && stem[k] != '\n')
    && AllDigits(stem[i..j])
    && (j == |stem| || !IsDigit(stem[j]))
  }

  /** Where the pattern matches, EpisodeNumber reads the group it captures. */
  lemma {:induction false} EpisodeNumberOfMatch(stem: string, i: int, j: int)
    requires MatchesAt(stem, i, j)
    ensures EpisodeNumber(stem) == Some(DigitsValue(stem[i..j]))
    decreases i
  {
    if i == 0 {
      LeadingDigitsOfRun(stem, j);
      assert stem[..j] == stem[i..j];
    } else {
      assert MatchesAt(stem[1..], i - 1, j - 1) by {
        forall k | 0 <= k < i - 1 ensures !IsDigit(stem[1..][k]) && stem[1..][k] != '\n' {
          assert stem[1..][k] == stem[k + 1];
        }
        assert stem[1..][i - 1..j - 1] == stem[i..j];
      }
      EpisodeNumberOfMatch(stem[1..], i - 1, j - 1);
      assert stem[1..][i - 1..j - 1] == stem[i..j];
      assert !IsDigit(stem[0]) && stem[0] != '\n';
    }
  }

  /** EpisodeNumber finds a number exactly when the pattern matches somewhere. */
  lemma {:induction false} EpisodeNumberMatches(stem: string)
    ensures EpisodeNumber(stem).Some? <==> exists i, j :: MatchesAt(stem, i, j)
  {
    if exists i, j :: MatchesAt(stem, i, j) {
      var i, j :| MatchesAt(stem, i, j);
      EpisodeNumberOfMatch(stem, i, j);
    }
    if EpisodeNumber(stem).Some? {
      var i := MatchStart(stem);
      var j := i + |LeadingDigits(stem[i..])|;
      assert stem[i..][..j - i] == stem[i..j];
      assert j == |stem| || stem[i..][j - i] == stem[j];
      assert MatchesAt(stem, i, j);
    }
  }

  /** Where the match begins: the position of the first digit. */
  function MatchStart(stem: string): (i: nat)
    requires EpisodeNumber(stem).Some?
    ensures i < |stem| && IsDigit(stem[i])
    ensures forall k :: 0 <= k < i ==> !IsDigit(stem[k]) && stem[k] != '\n'
  {
    if IsDigit(stem[0]) then 0
    else
      var i := MatchStart(stem[1..]);
      assert forall k :: 1 <= k <= i ==> stem[k] == stem[1..][k - 1];
      i + 1
  }

  /** A stem without a digit yields nothing. */
  lemma {:induction false} NoDigitNoEpisode(stem: string)
    requires forall k :: 0 <= k < |stem| ==> !IsDigit(stem[k])
    ensures EpisodeNumber(stem).None?
  {
    if stem != [] && stem[0] != '\n' {
      NoDigitNoEpisode(stem[1..]);
    }
  }

  /** `{int(m.group(1)) for f in paths if (m := pattern.match(stem(f)))}`. */
  function Found(stems: seq<string>): set<nat> {
    set i | 0 <= i < |stems| && EpisodeNumber(stems[i]).Some? :: EpisodeNumber(stems[i]).value
  }

  /** `sorted(Found(stems))`: the episode numbers the "all" mode processes. */
  function Discover(stems: seq<string>): seq<nat> {
    SortSet(Found(stems))
  }

  /** Discovery lists, strictly ascending and so each once, exactly the numbers
      the pattern captures from some stem. */
  lemma DiscoverSpec(stems: seq<string>)
    ensures StrictlyAscending(Discover(stems))
    ensures forall x :: x in Discover(stems) <==>
      exists i, a, b :: 0 <= i < |stems| && MatchesAt(stems[i], a, b) && x == DigitsValue(stems[i][a..b])
  {
    forall x ensures x in Discover(stems) <==>
      exists i, a, b :: 0 <= i < |stems| && MatchesAt(stems[i], a, b) && x == DigitsValue(stems[i][a..b])
    {
      if x in Discover(stems) {
        var i :| 0 <= i < |stems| && EpisodeNumber(stems[i]) == Some(x);
        EpisodeNumberMatches(stems[i]);
        var a, b :| MatchesAt(stems[i], a, b);
        EpisodeNumberOfMatch(stems[i], a, b);
      }
      if exists i, a, b :: 0 <= i < |stems| && MatchesAt(stems[i], a, b) && x == DigitsValue(stems[i][a..b]) {
        var i, a, b :| 0 <= i < |stems| && MatchesAt(stems[i], a, b) && x == DigitsValue(stems[i][a..b]);
        EpisodeNumberOfMatch(stems[i], a, b);
        assert x in Found(stems);
      }
    }
  }
}
