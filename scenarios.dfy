/** Concrete runs of the model: the watch-list setting of a typical
    deployment, a first find, a release whose quota is used up, and a run
    whose state could not be loaded. */
module Scenarios {
  import opened Wrappers
  import opened WatchList
  import opened Availability
  import opened Quota
  import opened Run

  /** The keys of releases 111 and 222. */
  lemma DecimalSpellings()
    ensures KeyOf(Num(111)) == "111" && KeyOf(Num(222)) == "222"
  {
    assert Decimal(1) == "1" && Decimal(2) == "2";
    assert Decimal(11) == "11" && Decimal(22) == "22";
  }

  /** Two IDs written as "111, 222" are the pieces "111" and " 222". */
  lemma TwoSpelled(a: nat, b: nat)
    ensures Join(Spelled([a, b], ["", " "], ["", ""])) == Decimal(a) + ", " + Decimal(b)
  {
    var pieces := Spelled([a, b], ["", " "], ["", ""]);
    assert pieces[0] == Decimal(a) && pieces[1] == " " + Decimal(b);
    assert Join(pieces[1..]) == " " + Decimal(b);
    assert Decimal(a) + [Separator] + (" " + Decimal(b)) == Decimal(a) + ", " + Decimal(b);
  }

  /** A setting such as "111, 222" lists the two releases in order: the
      space after the comma is trimmed away. */
  lemma TwoWatchedReleases(a: nat, b: nat)
    ensures ParseWatchList(Some(Decimal(a) + ", " + Decimal(b))) == [Num(a), Num(b)]
  {
    TwoSpelled(a, b);
    ParseSpelledList([a, b], ["", " "], ["", ""]);
  }

  /** A trailing comma leaves an empty last piece. */
  lemma TrailingCommaPieces(d: string)
    requires AllDigits(d)
    ensures Split(d + [Separator]) == [d, []]
  {
    assert Separator !in d by {
      assert forall k :: 0 <= k < |d| ==> IsDigit(d[k]);
    }
    SplitPiece(d, []);
    assert d + [Separator] + [] == d + [Separator];
  }

  /** A setting made of two pieces lists the two pieces' numbers. */
  lemma TwoPieces(setting: string, p0: string, p1: string)
    requires Split(setting) == [p0, p1]
    ensures ParseWatchList(Some(setting)) == [ToNumber(Trim(p0)), ToNumber(Trim(p1))]
  {
    assert setting != [];
  }

  /** An empty piece converts to 0, so a trailing comma after a release ID
      adds release 0 to the watch list. */
  lemma TrailingCommaWatchesZero(d: string)
    requires d != [] && AllDigits(d)
    ensures ParseWatchList(Some(d + [Separator])) == [Num(DecimalValue(d)), Num(0)]
  {
    TrailingCommaPieces(d);
    TwoPieces(d + [Separator], d, []);
    DigitsTrimmed(d);
    DigitsTrimmed([]);
  }

  /** A setting made of whitespace only is not empty, and watches release 0. */
  lemma WhitespaceOnlyWatchesZero(setting: string)
    requires setting != [] && AllTrimmable(setting)
    ensures ParseWatchList(Some(setting)) == [Num(0)]
  {
    var pieces := Split(setting);
    assert pieces == [setting] by {
      SplitPiece(setting, []);
    }
    assert Trim(setting) == [] by {
      TrimPadded(setting, [], []);
      assert setting + [] + [] == setting;
    }
    var ids := ParseWatchList(Some(setting));
    assert |ids| == 1;
    assert ids[0] == ToNumber(Trim(pieces[0]));
  }

  /** Release 111 is for sale for the first time and 222 is not: one
      message, naming the title and the link; 111's counter becomes 1. */
  lemma FirstFind()
    ensures var watch := [Num(111), Num(222)];
            var answers := Answers([Fetched(Release(Some(2), Some("Album A"), Some("http://x/111"))),
                                    Fetched(Release(Some(0), Some("Album B"), Some("http://x/222")))]);
            && SentLog(map[], watch, answers) == [FoundMessage("Album A", "http://x/111")]
            && StateAfter(map[], watch, answers) == map["111" := 1]
  {
    DecimalSpellings();
    var watch := [Num(111), Num(222)];
    var answers := Answers([Fetched(Release(Some(2), Some("Album A"), Some("http://x/111"))),
                            Fetched(Release(Some(0), Some("Album B"), Some("http://x/222")))]);
    assert answers[0] == Found(FoundMessage("Album A", "http://x/111")) && answers[1] == NotFound;
    assert watch[..1] == [Num(111)] && answers[..1] == [answers[0]];
    assert StateAfter(map[], watch[..1], answers[..1]) == map["111" := 1];
  }

  /** The first find as a whole run of the checker with no stored state:
      one message goes out and the new state is written back once. */
  method FirstFindRun() returns (sentLog: seq<string>, saves: seq<SentState>, sentData: SentState)
    ensures sentLog == [FoundMessage("Album A", "http://x/111")]
    ensures sentData == map["111" := 1] && saves == [map["111" := 1]]
  {
    FirstFind();
    sentLog, saves, sentData := CheckAllAlbums(
      [Num(111), Num(222)], LoadFailed,
      [Fetched(Release(Some(2), Some("Album A"), Some("http://x/111"))),
       Fetched(Release(Some(0), Some("Album B"), Some("http://x/222")))]);
  }

  /** Release 111 has had its three messages: it is found again, but
      nothing is sent and the state stays as loaded. */
  lemma QuotaUsedUp()
    ensures var watch := [Num(111)];
            var answers := Answers([Fetched(Release(Some(5), Some("Album A"), Some("http://x/111")))]);
            && SentLog(map["111" := 3], watch, answers) == []
            && StateAfter(map["111" := 3], watch, answers) == map["111" := 3]
  {
    DecimalSpellings();
  }

  /** The used-up quota as a whole run: nothing is sent and nothing is
      written back. */
  method QuotaUsedUpRun() returns (sentLog: seq<string>, saves: seq<SentState>, sentData: SentState)
    ensures sentLog == [] && saves == [] && sentData == map["111" := 3]
  {
    QuotaUsedUp();
    sentLog, saves, sentData := CheckAllAlbums(
      [Num(111)], Loaded(map["111" := 3]),
      [Fetched(Release(Some(5), Some("Album A"), Some("http://x/111")))]);
  }

  /** A run whose state could not be loaded behaves exactly like a run from
      an empty stored state: same messages, same saves, same final state. */
  method FailedLoadIsFreshRun(watch: seq<ReleaseId>, lookups: seq<Lookup>)
    returns (failedLog: seq<string>, failedSaves: seq<SentState>, failedState: SentState,
             freshLog: seq<string>, freshSaves: seq<SentState>, freshState: SentState)
    requires |lookups| == |watch|
    ensures failedLog == freshLog && failedSaves == freshSaves && failedState == freshState
  {
    failedLog, failedSaves, failedState := CheckAllAlbums(watch, LoadFailed, lookups);
    freshLog, freshSaves, freshState := CheckAllAlbums(watch, Loaded(map[]), lookups);
  }
}
