/** One run of the checker (check.js:118-147): load the state, check every
    watched release in order, send a notification for each one found whose
    quota is not used up, and write the state back if anything changed.
    The network is replaced by inputs and outputs: the outcome of loading
    the state and of each release lookup are parameters, the messages
    handed to the messenger and the states handed to the store are
    returned. */
module Run {
  import opened WatchList
  import opened Availability
  import opened Quota

  /** The outcome of reading the state document: the stored mapping, or a
      failure of any kind (transport error, error status, missing file
      entry, content that is not JSON). */
  datatype LoadOutcome = Loaded(state: SentState) | LoadFailed

  /** `loadSentData`: the stored mapping, or the empty mapping when loading
      failed, so that the run goes on as a fresh-state run. */
  function LoadSentData(outcome: LoadOutcome): (state: SentState)
    ensures outcome.LoadFailed? ==> state == map[]
    ensures outcome.Loaded? ==> state == outcome.state
  {
    match outcome
    case Loaded(s) => s
    case LoadFailed => map[]
  }

  /** The checker's answer to each lookup, in order. */
  function Answers(lookups: seq<Lookup>): (answers: seq<Availability>)
    ensures |answers| == |lookups|
    ensures forall i :: 0 <= i < |lookups| ==> answers[i] == CheckAlbumAvailability(lookups[i])
  {
    seq(|lookups|, i requires 0 <= i < |lookups| => CheckAlbumAvailability(lookups[i]))
  }

  /** The loop body of `checkAllAlbums` for one watched release, given the
      availability check's answer for it: when the release is found and
      its counter is below the limit, the message is sent and the counter
      incremented; otherwise nothing happens. Returns the messages sent
      (none or one) and the new state. */
  method CheckRelease(sentData: SentState, releaseId: ReleaseId, result: Availability)
    returns (sent: seq<string>, after: SentState)
    ensures after == Step(sentData, releaseId, result)
    ensures sent == (if Sends(sentData, releaseId, result) then [result.message] else [])
  {
    sent, after := [], sentData;
    if result.Found? {
      var key := KeyOf(releaseId);
      var count := if key in sentData then sentData[key] else 0;
      assert count == Count(sentData, key);
      if count < Limit {
        sent := [result.message];
        after := sentData[key := count + 1];
      }
    }
  }

  /** `checkAllAlbums`. `lookups[i]` is what the marketplace returned for
      `watch[i]`. The result is the list of messages passed to the
      messenger (one per send attempt; delivery failures are swallowed and
      do not undo the increment), the list of states passed to the store
      (at most one), and the in-memory state at the end of the run. */
  method CheckAllAlbums(watch: seq<ReleaseId>, load: LoadOutcome, lookups: seq<Lookup>)
    returns (sentLog: seq<string>, saves: seq<SentState>, sentData: SentState)
    requires |lookups| == |watch|
    ensures var initial, answers := LoadSentData(load), Answers(lookups);
            && sentData == StateAfter(initial, watch, answers)
            && sentLog == SentLog(initial, watch, answers)
            && saves == (if sentData != initial then [sentData] else [])
    ensures saves != [] <==> sentLog != []
  {
    sentData := LoadSentData(load);
    ghost var initial := sentData;
    ghost var answers := Answers(lookups);
    var hasChanges := false;
    sentLog := [];
    for i := 0 to |watch|
      invariant sentData == StateAfter(initial, watch[..i], answers[..i])
      invariant sentLog == SentLog(initial, watch[..i], answers[..i])
      invariant hasChanges <==> sentLog != []
    {
      var result := CheckAlbumAvailability(lookups[i]);
      var sent, after := CheckRelease(sentData, watch[i], result);
      if sent != [] {
        hasChanges := true;
      }
      sentLog := sentLog + sent;
      sentData := after;
      assert answers[i] == CheckAlbumAvailability(lookups[i]);
      PrefixStep(initial, watch, answers, i);
    }
    assert watch[..|watch|] == watch && answers[..|watch|] == answers;
    ChangedIffSent(initial, watch, answers);
    saves := [];
    if hasChanges {
      saves := [sentData];
    }
  }
}
