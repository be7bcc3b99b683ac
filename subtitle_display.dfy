/**
 * The display side of useSubtitle (application/src/composables/useSubtitle.js): the watcher that
 * parses new markup and starts the simulated clock, the interval callback that advances it, and
 * updateSubtitle, which shows the fragments of every leading entry whose time has come.
 */
module SubtitleDisplay {
  import opened EntrySort
  import opened SubtitleParse
  import opened GameConfig

  /** The texts of `s` run together, in order: what `displayedText +=` builds up. */
  function Concat(s: seq<Entry>): string
  {
    if s == [] then "" else Concat(s[..|s| - 1]) + s[|s| - 1].text
  }

  lemma {:induction false} ConcatSnoc(s: seq<Entry>, e: Entry)
    ensures Concat(s + [e]) == Concat(s) + e.text
  {
    assert (s + [e])[..|s|] == s;
  }

  /** A longer prefix of the entries displays a longer text, which starts with the shorter one. */
  lemma {:induction false} ConcatPrefix(s: seq<Entry>, a: nat, b: nat)
    requires a <= b <= |s|
    ensures Concat(s[..a]) <= Concat(s[..b])
    decreases b
  {
    if a < b {
      ConcatPrefix(s, a, b - 1);
      assert s[..b] == s[..b - 1] + [s[b - 1]];
      ConcatSnoc(s[..b - 1], s[b - 1]);
    }
  }

  /** Where, scanning from `i`, the loop of updateSubtitle meets the first entry whose time has not come. */
  function ShownFrom(entries: seq<Entry>, currentTime: real, i: nat): (n: nat)
    requires i <= |entries|
    ensures i <= n <= |entries|
    ensures forall k :: i <= k < n ==> entries[k].t <= currentTime
    ensures n == |entries| || entries[n].t > currentTime
    decreases |entries| - i
  {
    if i == |entries| || entries[i].t > currentTime then i else ShownFrom(entries, currentTime, i + 1)
  }

  /** How many leading entries updateSubtitle shows at `currentTime`. */
  function ShownCount(entries: seq<Entry>, currentTime: real): (n: nat)
    ensures n <= |entries|
    ensures forall k :: 0 <= k < n ==> entries[k].t <= currentTime
    ensures n == |entries| || entries[n].t > currentTime
  {
    ShownFrom(entries, currentTime, 0)
  }

  lemma {:induction false} ShownFromUnique(entries: seq<Entry>, currentTime: real, i: nat, n: nat)
    requires i <= n <= |entries|
    requires forall k :: i <= k < n ==> entries[k].t <= currentTime
    requires n == |entries| || entries[n].t > currentTime
    ensures ShownFrom(entries, currentTime, i) == n
    decreases |entries| - i
  {
    if i < n {
      ShownFromUnique(entries, currentTime, i + 1, n);
    }
  }

  /**
   * The shown prefix is the longest one whose entries have all come due: a prefix length is
   * ShownCount exactly when its entries are due and the next one, if any, is not.
   */
  lemma {:induction false} ShownCountLongest(entries: seq<Entry>, currentTime: real, n: nat)
    requires n <= |entries|
    ensures ShownCount(entries, currentTime) == n <==>
      (forall k :: 0 <= k < n ==> entries[k].t <= currentTime) && (n == |entries| || entries[n].t > currentTime)
  {
    if (forall k :: 0 <= k < n ==> entries[k].t <= currentTime) && (n == |entries| || entries[n].t > currentTime) {
      ShownFromUnique(entries, currentTime, 0, n);
    }
  }

  /** One round of the display loop: an entry that has come due is shown and the loop goes on. */
  lemma {:induction false} ShownStep(entries: seq<Entry>, currentTime: real, i: nat)
    requires i < |entries| && i <= ShownCount(entries, currentTime) && entries[i].t <= currentTime
    ensures i + 1 <= ShownCount(entries, currentTime)
    ensures Concat(entries[..i + 1]) == Concat(entries[..i]) + entries[i].text
  {
    assert entries[..i + 1] == entries[..i] + [entries[i]];
    ConcatSnoc(entries[..i], entries[i]);
  }

  /** The text updateSubtitle displays at `currentTime`. */
  function Displayed(entries: seq<Entry>, currentTime: real): string
  {
    Concat(entries[..ShownCount(entries, currentTime)])
  }

  lemma {:induction false} DisplayedEmpty(currentTime: real)
    ensures Displayed([], currentTime) == ""
  {
    assert ShownCount([], currentTime) == 0;
  }

  /** The display only grows as time goes on: an earlier display is a prefix of a later one. */
  lemma {:induction false} DisplayedMonotone(entries: seq<Entry>, earlier: real, later: real)
    requires earlier <= later
    ensures Displayed(entries, earlier) <= Displayed(entries, later)
  {
    var a := ShownCount(entries, earlier);
    var b := ShownCount(entries, later);
    ConcatPrefix(entries, a, b);
  }

  /** The entries of `s` whose time has come, in their order in `s`. */
  function Reached(s: seq<Entry>, currentTime: real): seq<Entry>
  {
    if s == [] then []
    else (if s[0].t <= currentTime then [s[0]] else []) + Reached(s[1..], currentTime)
  }

  /** When exactly the first `n` entries are due, they are the ones that have come. */
  lemma {:induction false} ReachedSplit(s: seq<Entry>, currentTime: real, n: nat)
    requires n <= |s|
    requires forall k :: 0 <= k < n ==> s[k].t <= currentTime
    requires forall k :: n <= k < |s| ==> s[k].t > currentTime
    ensures Reached(s, currentTime) == s[..n]
  {
    if s != [] {
      var m := if n == 0 then 0 else n - 1;
      assert forall k :: 0 <= k < m ==> s[1..][k].t <= currentTime by {
        forall k | 0 <= k < m ensures s[1..][k].t <= currentTime {
          assert s[1..][k] == s[k + 1];
        }
      }
      assert forall k :: m <= k < |s| - 1 ==> s[1..][k].t > currentTime by {
        forall k | m <= k < |s| - 1 ensures s[1..][k].t > currentTime {
          assert s[1..][k] == s[k + 1];
        }
      }
      ReachedSplit(s[1..], currentTime, m);
      if n > 0 {
        assert s[..n] == [s[0]] + s[1..][..m];
      } else {
        assert s[0].t > currentTime;
      }
    }
  }

  /**
   * On entries in time order, as the parser returns them, the loop's early exit loses nothing:
   * the display is the text of every entry whose time has come.
   */
  lemma {:induction false} DisplayedSorted(entries: seq<Entry>, currentTime: real)
    requires Sorted(entries)
    ensures Displayed(entries, currentTime) == Concat(Reached(entries, currentTime))
  {
    var n := ShownCount(entries, currentTime);
    forall k | n <= k < |entries| ensures entries[k].t > currentTime {
      assert entries[n].t <= entries[k].t;
    }
    ReachedSplit(entries, currentTime, n);
  }

  /** The subtitle state of one useSubtitle instance. */
  class SubtitleEngine {
    /** GAME_CONFIG.ENABLE_AUDIO for this instance. */
    const enableAudio: bool
    /** Whether audioPlayerRef currently holds a player. */
    var hasAudioPlayer: bool
    var parsedSubtitles: seq<Entry>
    var currentSubtitle: string
    var currentSubtitleTime: real
    var simulatedTime: real
    /** Whether the 100 ms simulation interval is running. */
    var simulationActive: bool
    /** The markup last handed to the watcher. */
    ghost var sourceText: string
    /** The interval callbacks run since that markup arrived. */
    ghost var ticks: nat

    ghost predicate Valid()
      reads this
    {
      Sorted(parsedSubtitles) &&
      (simulationActive ==> !enableAudio && sourceText != "") &&
      simulatedTime == ticks as real * SIMULATION_STEP &&
      (currentSubtitle == "" || currentSubtitle == Displayed(parsedSubtitles, currentSubtitleTime))
    }

    /** useSubtitle(audioPlayerRef, subtitleText): the watcher runs immediately on the initial markup. */
    constructor (enableAudio: bool, hasAudioPlayer: bool, text: string)
      ensures Valid()
      ensures this.enableAudio == enableAudio && this.hasAudioPlayer == hasAudioPlayer
      ensures parsedSubtitles == Parse(text) && sourceText == text
      ensures currentSubtitle == "" && currentSubtitleTime == 0.0 && simulatedTime == 0.0 && ticks == 0
      ensures simulationActive == (!enableAudio && text != "")
    {
      this.enableAudio := enableAudio;
      this.hasAudioPlayer := hasAudioPlayer;
      new;
      SetText(text);
    }

    /** A change of audioPlayerRef. */
    method SetAudioPlayer(present: bool)
      requires Valid()
      modifies this
      ensures Valid() && hasAudioPlayer == present
      ensures parsedSubtitles == old(parsedSubtitles) && sourceText == old(sourceText)
      ensures currentSubtitle == old(currentSubtitle) && currentSubtitleTime == old(currentSubtitleTime)
      ensures simulatedTime == old(simulatedTime) && simulationActive == old(simulationActive) && ticks == old(ticks)
    {
      hasAudioPlayer := present;
    }

    /**
     * The subtitleText watcher: parse the new markup, blank the display, reset both clocks, stop
     * the interval, and start it again only when audio is disabled and the markup is not empty.
     */
    method SetText(text: string)
      modifies this
      ensures Valid()
      ensures parsedSubtitles == Parse(text) && sourceText == text
      ensures currentSubtitle == "" && currentSubtitleTime == 0.0 && simulatedTime == 0.0 && ticks == 0
      ensures simulationActive == (!enableAudio && text != "")
      ensures hasAudioPlayer == old(hasAudioPlayer)
    {
      var parsed := ParseSubtitleText(text);
      sourceText := text;
      currentSubtitle := "";
      currentSubtitleTime := 0.0;
      simulatedTime := 0.0;
      ticks := 0;
      simulationActive := !enableAudio && text != "";
      parsedSubtitles := parsed;
    }

    /**
     * updateSubtitle(currentTime): with audio enabled and no player the display and its time are
     * blanked; otherwise the time is recorded and the leading entries that have come due are shown.
     */
    method UpdateSubtitle(currentTime: real)
      requires Valid()
      modifies this
      ensures Valid()
      ensures !hasAudioPlayer && enableAudio ==> currentSubtitle == "" && currentSubtitleTime == 0.0
      ensures !(!hasAudioPlayer && enableAudio) ==>
        currentSubtitleTime == currentTime && currentSubtitle == Displayed(parsedSubtitles, currentTime)
      ensures parsedSubtitles == old(parsedSubtitles) && sourceText == old(sourceText)
      ensures hasAudioPlayer == old(hasAudioPlayer) && simulatedTime == old(simulatedTime)
      ensures simulationActive == old(simulationActive) && ticks == old(ticks)
    {
      if !hasAudioPlayer && enableAudio {
        currentSubtitle := "";
        currentSubtitleTime := 0.0;
        return;
      }
      var subtitles := parsedSubtitles;
      var displayedText := "";
      for i := 0 to |subtitles|
        modifies {}
        invariant i <= ShownCount(subtitles, currentTime)
        invariant displayedText == Concat(subtitles[..i])
      {
        var subtitle := subtitles[i];
        if currentTime >= subtitle.t {
          ShownStep(subtitles, currentTime, i);
          displayedText := displayedText + subtitle.text;
        } else {
          break;
        }
      }
      currentSubtitleTime := currentTime;
      currentSubtitle := displayedText;
    }

    /**
     * One run of the interval callback: the simulated clock advances by 0.1 s and the display
     * follows it, never losing text it already showed at an earlier time.
     */
    method Tick()
      requires Valid() && simulationActive
      modifies this
      ensures Valid() && simulationActive
      ensures ticks == old(ticks) + 1 && simulatedTime == old(simulatedTime) + SIMULATION_STEP
      ensures currentSubtitleTime == simulatedTime && currentSubtitle == Displayed(parsedSubtitles, simulatedTime)
      ensures old(currentSubtitleTime) <= simulatedTime ==> old(currentSubtitle) <= currentSubtitle
      ensures parsedSubtitles == old(parsedSubtitles) && sourceText == old(sourceText)
      ensures hasAudioPlayer == old(hasAudioPlayer)
    {
      ghost var before := currentSubtitle;
      ghost var beforeTime := currentSubtitleTime;
      ticks := ticks + 1;
      simulatedTime := simulatedTime + SIMULATION_STEP;
      UpdateSubtitle(simulatedTime);
      if beforeTime <= simulatedTime && before != "" {
        DisplayedMonotone(parsedSubtitles, beforeTime, simulatedTime);
      }
    }
  }
}
