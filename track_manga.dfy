/**
 * Tracker cards of the track dialog of a manga: which mode each logged-in tracker's
 * card is shown in, and which cards are shown while a search is active.
 */
module TrackManga {
  import opened Wrappers

  /** The mode a tracker card is shown in. */
  datatype TrackerMode = Search | Info | Untracked

  /** A logged-in tracker. `name` stands for every field other than the id. */
  datatype Tracker = Tracker(id: int, name: string)

  /** The props of one rendered tracker card that the model keeps. */
  datatype TrackerCard = TrackerCard(tracker: Tracker, mode: TrackerMode)

  /**
   * getTrackerMode: the tracker being searched for is in search mode, a tracker in use
   * for this manga shows its info, every other tracker is untracked.
   */
  function GetTrackerMode(id: int, trackersInUse: seq<int>, searchModeForTracker: Option<int>): (mode: TrackerMode)
    ensures mode == Search <==> searchModeForTracker == Some(id)
    ensures mode == Info <==> id in trackersInUse && searchModeForTracker != Some(id)
    ensures mode == Untracked <==> id !in trackersInUse && searchModeForTracker != Some(id)
  {
    if searchModeForTracker == Some(id) then Search
    else if id in trackersInUse then Info
    else Untracked
  }

  /** Without an active search no tracker is in search mode. */
  lemma NoSearchModeWithoutSearch(id: int, trackersInUse: seq<int>)
    ensures GetTrackerMode(id, trackersInUse, None) != Search
    ensures GetTrackerMode(id, trackersInUse, None) == Info <==> id in trackersInUse
  {
  }

  /** The card of one tracker, or none when a search for another tracker is active. */
  function CardFor(tracker: Tracker, trackersInUseIds: seq<int>, searchModeForTracker: Option<int>): (card: Option<TrackerCard>)
    ensures card.Some? <==> searchModeForTracker.None? || searchModeForTracker == Some(tracker.id)
    ensures card.Some? ==> card.value == TrackerCard(tracker, GetTrackerMode(tracker.id, trackersInUseIds, searchModeForTracker))
  {
    var mode := GetTrackerMode(tracker.id, trackersInUseIds, searchModeForTracker);
    if searchModeForTracker.Some? && mode != Search then None
    else Some(TrackerCard(tracker, mode))
  }

  /**
   * trackerComponents: one slot per logged-in tracker, in their order. Without an active search
   * every slot holds that tracker's card; with one, exactly the slots of the searched tracker do.
   */
  function TrackerComponents(loggedInTrackers: seq<Tracker>, trackersInUseIds: seq<int>, searchModeForTracker: Option<int>)
    : (cards: seq<Option<TrackerCard>>)
    ensures |cards| == |loggedInTrackers|
    ensures forall k :: 0 <= k < |cards| && cards[k].Some? ==>
              cards[k].value == TrackerCard(loggedInTrackers[k], GetTrackerMode(loggedInTrackers[k].id, trackersInUseIds, searchModeForTracker))
    ensures searchModeForTracker.None? ==> forall k :: 0 <= k < |cards| ==> cards[k].Some?
    ensures searchModeForTracker.Some? ==>
              forall k :: 0 <= k < |cards| ==> (cards[k].Some? <==> loggedInTrackers[k].id == searchModeForTracker.value)
  {
    if |loggedInTrackers| == 0 then []
    else [CardFor(loggedInTrackers[0], trackersInUseIds, searchModeForTracker)]
         + TrackerComponents(loggedInTrackers[1..], trackersInUseIds, searchModeForTracker)
  }

  /** The number of slots that render a card. */
  function CardCount(cards: seq<Option<TrackerCard>>): nat {
    if |cards| == 0 then 0 else (if cards[0].Some? then 1 else 0) + CardCount(cards[1..])
  }

  /** Logged-in trackers have pairwise different ids. */
  predicate DistinctTrackerIds(trackers: seq<Tracker>) {
    forall i, j :: 0 <= i < j < |trackers| ==> trackers[i].id != trackers[j].id
  }

  lemma {:induction false} NoCardWithoutSearchedTracker(loggedInTrackers: seq<Tracker>, trackersInUseIds: seq<int>, searched: int)
    requires forall k :: 0 <= k < |loggedInTrackers| ==> loggedInTrackers[k].id != searched
    ensures CardCount(TrackerComponents(loggedInTrackers, trackersInUseIds, Some(searched))) == 0
  {
    if |loggedInTrackers| > 0 {
      NoCardWithoutSearchedTracker(loggedInTrackers[1..], trackersInUseIds, searched);
    }
  }

  /**
   * While a search is active and the logged-in trackers have distinct ids, exactly one card is
   * shown when the searched tracker is logged in, and none otherwise.
   */
  lemma {:induction false} OneCardWhileSearching(loggedInTrackers: seq<Tracker>, trackersInUseIds: seq<int>, searched: int)
    requires DistinctTrackerIds(loggedInTrackers)
    ensures CardCount(TrackerComponents(loggedInTrackers, trackersInUseIds, Some(searched))) ==
              if exists k :: 0 <= k < |loggedInTrackers| && loggedInTrackers[k].id == searched then 1 else 0
  {
    if |loggedInTrackers| > 0 {
      var rest := loggedInTrackers[1..];
      if loggedInTrackers[0].id == searched {
        assert forall k :: 0 <= k < |rest| ==> rest[k] == loggedInTrackers[k + 1];
        NoCardWithoutSearchedTracker(rest, trackersInUseIds, searched);
      } else {
        OneCardWhileSearching(rest, trackersInUseIds, searched);
        assert (exists k :: 0 <= k < |loggedInTrackers| && loggedInTrackers[k].id == searched)
               <==> (exists k :: 0 <= k < |rest| && rest[k].id == searched) by {
          if exists k :: 0 <= k < |loggedInTrackers| && loggedInTrackers[k].id == searched {
            var k :| 0 <= k < |loggedInTrackers| && loggedInTrackers[k].id == searched;
            assert rest[k - 1].id == searched;
          }
        }
      }
    }
  }

  /** Without an active search every logged-in tracker renders a card. */
  lemma {:induction false} AllCardsWithoutSearch(loggedInTrackers: seq<Tracker>, trackersInUseIds: seq<int>)
    ensures CardCount(TrackerComponents(loggedInTrackers, trackersInUseIds, None)) == |loggedInTrackers|
  {
    if |loggedInTrackers| > 0 {
      AllCardsWithoutSearch(loggedInTrackers[1..], trackersInUseIds);
    }
  }
}
