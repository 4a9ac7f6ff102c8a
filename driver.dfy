/** The decisions `main` takes around the external muxing library: the version
    suffix of the output names, which episodes to process, and the exit code.
    `mux_episode` is an oracle: for each episode it produces a file, produces
    nothing (files missing, a mux error it caught itself, or a dry run), or
    raises an exception that reaches `main`. */
module MuxDriver {

  import opened Wrappers
  import opened Text
  import opened Sorting
  import opened EpisodeSelector
  import opened EpisodeDiscovery

  // ---------------------------------------------------------------------------
  // verstr
  // ---------------------------------------------------------------------------

  /** `"" if version == 1 else f"v{version}"`. */
  function VersionSuffix(version: int): string {
    if version == 1 then "" else "v" + IntToString(version)
  }

  /** Reads a version back from a suffix: none means version 1. */
  function SuffixVersion(suffix: string): Option<int> {
    if suffix == "" then Some(1)
    else if suffix[0] == 'v' then StringToInt(suffix[1..])
    else None
  }

  /** The suffix is empty exactly for version 1 and otherwise "v" and the
      version, so distinct versions give distinct names. */
  lemma VersionSuffixRoundTrip(version: int)
    ensures SuffixVersion(VersionSuffix(version)) == Some(version)
    ensures VersionSuffix(version) == "" <==> version == 1
  {
    if version != 1 {
      IntToStringRoundTrip(version);
      assert VersionSuffix(version)[1..] == IntToString(version);
    }
  }

  // ---------------------------------------------------------------------------
  // main
  // ---------------------------------------------------------------------------

  /** What one `mux_episode` call did, as far as `main` can tell. */
  datatype MuxOutcome =
    | Muxed(path: string)  // returned the path of the written file
    | NotMuxed             // returned None
    | Raised               // an exception escaped to main

  /** Line 333: a call counts as a success when it returned a path, or in a dry run. */
  predicate Succeeded(outcome: MuxOutcome, dryRun: bool) {
    outcome.Muxed? || dryRun
  }

  /** The episodes `main` hands to `mux_episode`: the parsed selector, or for
      "all" the episodes discovered from the subtitle stems. */
  function Selected(episodeArg: string, subtitleStems: seq<string>): Result<seq<nat>, ParseError> {
    match Parse(episodeArg)
    case Err(e) => Err(e)
    case Ok(episodes) =>
      if episodes == [] && episodeArg == "all" then Ok(Discover(subtitleStems)) else Ok(episodes)
  }

  /** `successful_muxes` after the calls for `episodes`. */
  function SuccessCount(episodes: seq<nat>, dryRun: bool, muxEpisode: nat -> MuxOutcome): nat
    decreases |episodes|
  {
    if episodes == [] then 0
    else
      SuccessCount(episodes[..|episodes| - 1], dryRun, muxEpisode)
      + (if Succeeded(muxEpisode(episodes[|episodes| - 1]), dryRun) then 1 else 0)
  }

  /** The count is positive exactly when some call succeeded. */
  lemma {:induction false} SuccessCountPositive(episodes: seq<nat>, dryRun: bool, muxEpisode: nat -> MuxOutcome)
    ensures SuccessCount(episodes, dryRun, muxEpisode) > 0
        <==> exists k :: 0 <= k < |episodes| && Succeeded(muxEpisode(episodes[k]), dryRun)
    decreases |episodes|
  {
    if episodes != [] {
      var init := episodes[..|episodes| - 1];
      SuccessCountPositive(init, dryRun, muxEpisode);
      assert forall k :: 0 <= k < |init| ==> init[k] == episodes[k];
    }
  }

  /** In a dry run every episode counts. */
  lemma {:induction false} DryRunCountsAll(episodes: seq<nat>, muxEpisode: nat -> MuxOutcome)
    ensures SuccessCount(episodes, true, muxEpisode) == |episodes|
    decreases |episodes|
  {
    if episodes != [] {
      DryRunCountsAll(episodes[..|episodes| - 1], muxEpisode);
    }
  }

  /** `muxed` is the sequence of calls the loop at lines 328-334 makes: every
      episode up to and including the first one whose call raises, or all of
      them when none raises. */
  predicate CallsUpToFirstRaise(episodes: seq<nat>, muxed: seq<nat>, muxEpisode: nat -> MuxOutcome) {
    && muxed <= episodes
    && (forall k :: 0 <= k < |muxed| - 1 ==> !muxEpisode(muxed[k]).Raised?)
    && ((exists k :: 0 <= k < |episodes| && muxEpisode(episodes[k]).Raised?) ==>
          muxed != [] && muxEpisode(muxed[|muxed| - 1]).Raised?)
    && ((forall k :: 0 <= k < |episodes| ==> !muxEpisode(episodes[k]).Raised?) ==> muxed == episodes)
  }

  /** The predicate pins the calls down: only one sequence of calls meets it. */
  lemma CallsUnique(episodes: seq<nat>, m1: seq<nat>, m2: seq<nat>, muxEpisode: nat -> MuxOutcome)
    requires CallsUpToFirstRaise(episodes, m1, muxEpisode)
    requires CallsUpToFirstRaise(episodes, m2, muxEpisode)
    ensures m1 == m2
  {
    assert m1 == episodes[..|m1|] && m2 == episodes[..|m2|];
  }

  /** Lines 328-334: calls `mux_episode` for each episode in turn and counts the
      successes. Stops early, with `raised`, when a call raises; `muxed` records
      the episodes handed over, in call order. */
  method MuxEpisodes(episodes: seq<nat>, dryRun: bool, muxEpisode: nat -> MuxOutcome)
    returns (successfulMuxes: nat, raised: bool, ghost muxed: seq<nat>)
    ensures CallsUpToFirstRaise(episodes, muxed, muxEpisode)
    ensures raised <==> exists k :: 0 <= k < |episodes| && muxEpisode(episodes[k]).Raised?
    ensures !raised ==> successfulMuxes == SuccessCount(episodes, dryRun, muxEpisode)
  {
    successfulMuxes, muxed := 0, [];
    for i := 0 to |episodes|
      invariant muxed == episodes[..i]
      invariant forall k :: 0 <= k < i ==> !muxEpisode(episodes[k]).Raised?
      invariant successfulMuxes == SuccessCount(episodes[..i], dryRun, muxEpisode)
    {
      var result := muxEpisode(episodes[i]);
      muxed := muxed + [episodes[i]];
      assert episodes[..i + 1][..i] == episodes[..i];
      if result.Raised? {
        return successfulMuxes, true, muxed;
      }
      if result.Muxed? || dryRun {
        successfulMuxes := successfulMuxes + 1;
      }
    }
    assert episodes[..|episodes|] == episodes;
    raised := false;
  }

  /** The exit code of `main`, given whether the output directory could be
      created, the subtitle stems found for "all", the mode, and the oracle.
      `muxed` records the episodes handed to `mux_episode`, in call order. */
  method Run(episodeArg: string, outDirCreated: bool, subtitleStems: seq<string>, dryRun: bool,
             muxEpisode: nat -> MuxOutcome)
    returns (code: int, ghost muxed: seq<nat>)
    ensures code == 0 || code == 1 || code == 2
    ensures !outDirCreated ==> code == 1 && muxed == []
    ensures outDirCreated && Parse(episodeArg).Err? ==> code == 2 && muxed == []
    ensures outDirCreated && Parse(episodeArg).Ok? ==>
      var episodes := Selected(episodeArg, subtitleStems).value;
      && code != 2
      && CallsUpToFirstRaise(episodes, muxed, muxEpisode)
      && (code == 0 <==>
            episodes != []
            && (forall k :: 0 <= k < |episodes| ==> !muxEpisode(episodes[k]).Raised?)
            && exists k :: 0 <= k < |episodes| && Succeeded(muxEpisode(episodes[k]), dryRun))
  {
    muxed := [];
    if !outDirCreated {
      return 1, muxed;
    }
    var parsed := ParseEpisodeList(episodeArg);
    if parsed.Err? {
      return 2, muxed;
    }
    var episodes := parsed.value;
    if episodes == [] && episodeArg == "all" {
      episodes := Discover(subtitleStems);
      if episodes == [] {
        return 1, muxed;
      }
    }
    if episodes == [] {
      return 1, muxed;
    }
    assert episodes == Selected(episodeArg, subtitleStems).value;
    var successfulMuxes, raised;
    successfulMuxes, raised, muxed := MuxEpisodes(episodes, dryRun, muxEpisode);
    if raised {
      return 1, muxed;
    }
    SuccessCountPositive(episodes, dryRun, muxEpisode);
    code := if successfulMuxes > 0 then 0 else 1;
  }
}
