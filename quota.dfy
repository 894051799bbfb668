/** The notification quota of one run (check.js:121-146), as functions of
    the loaded state, the watch list and the checker's answers: which
    entries get a send attempt, the messages sent, and the state that is
    written back. The imperative loop in module Run is proved equal to
    these functions; the lemmas here state what the policy guarantees. */
module Quota {
  import opened WatchList
  import opened Availability

  /** The persisted state: notifications already sent, by the key that
      spells the release ID. A key that is absent counts as 0. */
  type SentState = map<string, int>

  /** Notifications allowed per release. */
  const Limit: int := 3

  /** `sentData[releaseId] || 0`: the stored counter, or 0 for a key that
      is absent. */
  function Count(state: SentState, key: string): int {
    if key in state then state[key] else 0
  }

  /** The loop body sends for this entry: the release was found and its
      counter is still below the limit. */
  predicate Sends(state: SentState, id: ReleaseId, answer: Availability) {
    answer.Found? && Count(state, KeyOf(id)) < Limit
  }

  /** The send rule in terms of the stored state: an entry is sent exactly
      when it was found and its key is either absent (read as 0) or holds a
      counter below 3; a missing key reads as 0. */
  lemma SendRule(state: SentState, id: ReleaseId, answer: Availability)
    ensures KeyOf(id) !in state ==> Count(state, KeyOf(id)) == 0
    ensures Sends(state, id, answer) <==>
              answer.Found? && (KeyOf(id) !in state || state[KeyOf(id)] < 3)
  {
  }

  /** The state after the loop body ran for one entry. */
  function Step(state: SentState, id: ReleaseId, answer: Availability): SentState {
    if Sends(state, id, answer) then state[KeyOf(id) := Count(state, KeyOf(id)) + 1]
    else state
  }

  /** One step: a send increments the entry's counter by one, creating it
      at 1 if absent; no other key is added, removed or changed. */
  lemma StepEffect(state: SentState, id: ReleaseId, answer: Availability)
    ensures var after := Step(state, id, answer);
            && after.Keys == (if Sends(state, id, answer) then state.Keys + {KeyOf(id)} else state.Keys)
            && Count(after, KeyOf(id)) == Count(state, KeyOf(id)) + (if Sends(state, id, answer) then 1 else 0)
            && forall k :: k in state && k != KeyOf(id) ==> after[k] == state[k]
  {
  }

  /** The state after the loop ran over all of `watch`, entry `i` having
      got the answer `answers[i]`. */
  function StateAfter(initial: SentState, watch: seq<ReleaseId>, answers: seq<Availability>): SentState
    requires |watch| == |answers|
    decreases |watch|
  {
    if watch == [] then initial
    else
      var n := |watch| - 1;
      Step(StateAfter(initial, watch[..n], answers[..n]), watch[n], answers[n])
  }

  /** For each entry of `watch`, whether the loop made a send attempt for
      it; only found entries ever get one. */
  function Sent(initial: SentState, watch: seq<ReleaseId>, answers: seq<Availability>): (sent: seq<bool>)
    requires |watch| == |answers|
    ensures |sent| == |watch|
    ensures forall i :: 0 <= i < |sent| && sent[i] ==> answers[i].Found?
    decreases |watch|
  {
    if watch == [] then []
    else
      var n := |watch| - 1;
      Sent(initial, watch[..n], answers[..n])
        + [Sends(StateAfter(initial, watch[..n], answers[..n]), watch[n], answers[n])]
  }

  /** The messages the loop hands to the messenger, in order; at most one
      per watch-list entry. */
  function SentLog(initial: SentState, watch: seq<ReleaseId>, answers: seq<Availability>): (log: seq<string>)
    requires |watch| == |answers|
    ensures |log| <= |watch|
    decreases |watch|
  {
    if watch == [] then []
    else
      var n := |watch| - 1;
      var state := StateAfter(initial, watch[..n], answers[..n]);
      SentLog(initial, watch[..n], answers[..n])
        + (if Sends(state, watch[n], answers[n]) then [answers[n].message] else [])
  }

  /** Running the loop over one more entry is one more step, and adds that
      step's message, if any, to the end of the log. */
  lemma PrefixStep(initial: SentState, watch: seq<ReleaseId>, answers: seq<Availability>, i: nat)
    requires |watch| == |answers| && i < |watch|
    ensures var before := StateAfter(initial, watch[..i], answers[..i]);
            && StateAfter(initial, watch[..i + 1], answers[..i + 1]) == Step(before, watch[i], answers[i])
            && SentLog(initial, watch[..i + 1], answers[..i + 1])
               == SentLog(initial, watch[..i], answers[..i])
                  + (if Sends(before, watch[i], answers[i]) then [answers[i].message] else [])
  {
    assert watch[..i + 1][..i] == watch[..i] && answers[..i + 1][..i] == answers[..i];
  }

  /** The messages of the found entries marked in `sent`, in list order. */
  function SentMessages(answers: seq<Availability>, sent: seq<bool>): seq<string>
    requires |sent| == |answers|
  {
    if sent == [] then []
    else
      var n := |sent| - 1;
      SentMessages(answers[..n], sent[..n])
        + (if sent[n] && answers[n].Found? then [answers[n].message] else [])
  }

  /** The positions marked in `sent`, in increasing order. */
  function SentPositions(sent: seq<bool>): seq<nat> {
    if sent == [] then []
    else
      var n := |sent| - 1;
      SentPositions(sent[..n]) + (if sent[n] then [n] else [])
  }

  /** How many send attempts `sent` marks for entries whose key is `key`. */
  function SendsFor(key: string, watch: seq<ReleaseId>, sent: seq<bool>): nat
    requires |watch| == |sent|
  {
    if watch == [] then 0
    else
      var n := |watch| - 1;
      SendsFor(key, watch[..n], sent[..n]) + (if sent[n] && KeyOf(watch[n]) == key then 1 else 0)
  }

  /** Some entry of `watch` has key `key`. */
  predicate Watched(key: string, watch: seq<ReleaseId>) {
    exists i :: 0 <= i < |watch| && KeyOf(watch[i]) == key
  }

  // ---------------------------------------------------------------------
  // Which entries send

  /** Entry `i` gets a send attempt exactly when it was found and the
      counter, as the loop had left it after the entries before `i`, is
      below the limit. */
  lemma {:induction false} SentExactly(initial: SentState, watch: seq<ReleaseId>, answers: seq<Availability>, i: nat)
    requires |watch| == |answers| && i < |watch|
    ensures Sent(initial, watch, answers)[i]
            <==> answers[i].Found? && Count(StateAfter(initial, watch[..i], answers[..i]), KeyOf(watch[i])) < Limit
    decreases |watch|
  {
    var n := |watch| - 1;
    var before := Sent(initial, watch[..n], answers[..n]);
    var last := Sends(StateAfter(initial, watch[..n], answers[..n]), watch[n], answers[n]);
    assert Sent(initial, watch, answers) == before + [last];
    if i < n {
      SentExactly(initial, watch[..n], answers[..n], i);
      assert watch[..n][..i] == watch[..i] && answers[..n][..i] == answers[..i];
      assert Sent(initial, watch, answers)[i] == before[i];
    } else {
      assert watch[..n] == watch[..i] && answers[..n] == answers[..i];
      assert Sent(initial, watch, answers)[i] == last;
    }
  }

  /** The marked positions, listed once each in increasing order. */
  lemma {:induction false} SentPositionsExact(sent: seq<bool>)
    ensures var pos := SentPositions(sent);
            && (forall j :: 0 <= j < |pos| ==> pos[j] < |sent| && sent[pos[j]])
            && (forall j, j' :: 0 <= j < j' < |pos| ==> pos[j] < pos[j'])
            && (forall i :: 0 <= i < |sent| && sent[i] ==> i in pos)
  {
    if sent != [] {
      var n := |sent| - 1;
      SentPositionsExact(sent[..n]);
      var pos := SentPositions(sent);
      assert forall j :: 0 <= j < |pos| && pos[j] < n ==> sent[pos[j]] == sent[..n][pos[j]];
    }
  }

  lemma {:induction false} SentMessagesAtPositions(answers: seq<Availability>, sent: seq<bool>)
    requires |sent| == |answers|
    requires forall i :: 0 <= i < |sent| && sent[i] ==> answers[i].Found?
    ensures var log, pos := SentMessages(answers, sent), SentPositions(sent);
            |log| == |pos|
            && forall j :: 0 <= j < |pos| ==> pos[j] < |answers| && sent[pos[j]] && log[j] == answers[pos[j]].message
  {
    if sent != [] {
      var n := |sent| - 1;
      SentMessagesAtPositions(answers[..n], sent[..n]);
      SentPositionsExact(sent[..n]);
      var log', pos' := SentMessages(answers[..n], sent[..n]), SentPositions(sent[..n]);
      assert SentMessages(answers, sent) == log' + (if sent[n] then [answers[n].message] else []);
      assert SentPositions(sent) == pos' + (if sent[n] then [n] else []);
      assert forall j :: 0 <= j < |pos'| ==> sent[pos'[j]] == sent[..n][pos'[j]] && answers[pos'[j]] == answers[..n][pos'[j]];
    }
  }

  lemma {:induction false} MarkedMessagesInOrder(answers: seq<Availability>, sent: seq<bool>)
    requires |sent| == |answers|
    requires forall i :: 0 <= i < |sent| && sent[i] ==> answers[i].Found?
    ensures var log, pos := SentMessages(answers, sent), SentPositions(sent);
            && |log| == |pos|
            && (forall j :: 0 <= j < |pos| ==> pos[j] < |sent| && sent[pos[j]] && log[j] == answers[pos[j]].message)
            && (forall j, j' :: 0 <= j < j' < |pos| ==> pos[j] < pos[j'])
            && (forall i :: 0 <= i < |sent| && sent[i] ==> i in pos)
  {
    SentPositionsExact(sent);
    SentMessagesAtPositions(answers, sent);
  }

  lemma {:induction false} SentLogIsMarkedMessages(initial: SentState, watch: seq<ReleaseId>, answers: seq<Availability>)
    requires |watch| == |answers|
    ensures SentLog(initial, watch, answers) == SentMessages(answers, Sent(initial, watch, answers))
    decreases |watch|
  {
    if watch != [] {
      var n := |watch| - 1;
      SentLogIsMarkedMessages(initial, watch[..n], answers[..n]);
      var sent := Sent(initial, watch, answers);
      assert sent[..n] == Sent(initial, watch[..n], answers[..n]);
    }
  }

  /** The send log lists, in watch-list order, the message of every entry
      that got a send attempt and of no other. */
  lemma {:induction false} SendLogInOrder(initial: SentState, watch: seq<ReleaseId>, answers: seq<Availability>)
    requires |watch| == |answers|
    ensures var log, sent := SentLog(initial, watch, answers), Sent(initial, watch, answers);
            var pos := SentPositions(sent);
            && |log| == |pos|
            && (forall j :: 0 <= j < |pos| ==>
                  pos[j] < |watch| && sent[pos[j]] && answers[pos[j]].Found? && log[j] == answers[pos[j]].message)
            && (forall j, j' :: 0 <= j < j' < |pos| ==> pos[j] < pos[j'])
            && (forall i :: 0 <= i < |watch| && sent[i] ==> i in pos)
  {
    SentLogIsMarkedMessages(initial, watch, answers);
    MarkedMessagesInOrder(answers, Sent(initial, watch, answers));
  }

  // ---------------------------------------------------------------------
  // What happens to the counters

  /** A key's final counter is its loaded counter plus the number of send
      attempts for it: one increment per attempt, whether or not the
      message was delivered. */
  lemma {:induction false} OneIncrementPerAttempt(initial: SentState, watch: seq<ReleaseId>, answers: seq<Availability>, key: string)
    requires |watch| == |answers|
    ensures Count(StateAfter(initial, watch, answers), key)
            == Count(initial, key) + SendsFor(key, watch, Sent(initial, watch, answers))
    decreases |watch|
  {
    if watch != [] {
      var n := |watch| - 1;
      OneIncrementPerAttempt(initial, watch[..n], answers[..n], key);
      assert Sent(initial, watch, answers)[..n] == Sent(initial, watch[..n], answers[..n]);
    }
  }

  /** A key that no send attempt was for stays exactly as loaded: present
      with the same value, or absent. */
  lemma {:induction false} UntouchedKey(initial: SentState, watch: seq<ReleaseId>, answers: seq<Availability>, key: string)
    requires |watch| == |answers|
    requires SendsFor(key, watch, Sent(initial, watch, answers)) == 0
    ensures var final := StateAfter(initial, watch, answers);
            (key in final <==> key in initial) && (key in initial ==> final[key] == initial[key])
    decreases |watch|
  {
    if watch != [] {
      var n := |watch| - 1;
      assert Sent(initial, watch, answers)[..n] == Sent(initial, watch[..n], answers[..n]);
      UntouchedKey(initial, watch[..n], answers[..n], key);
    }
  }

  lemma {:induction false} UnwatchedHasNoSends(key: string, watch: seq<ReleaseId>, sent: seq<bool>)
    requires |watch| == |sent| && !Watched(key, watch)
    ensures SendsFor(key, watch, sent) == 0
  {
    if watch != [] {
      var n := |watch| - 1;
      UnwatchedHasNoSends(key, watch[..n], sent[..n]);
    }
  }

  /** Keys of releases that are not watched keep their values, and the only
      keys the run adds are keys of watched releases. */
  lemma {:induction false} UnwatchedKeysUnchanged(initial: SentState, watch: seq<ReleaseId>, answers: seq<Availability>)
    requires |watch| == |answers|
    ensures var final := StateAfter(initial, watch, answers);
            forall key :: !Watched(key, watch) ==>
              (key in final <==> key in initial) && (key in initial ==> final[key] == initial[key])
  {
    forall key | !Watched(key, watch)
      ensures var final := StateAfter(initial, watch, answers);
              (key in final <==> key in initial) && (key in initial ==> final[key] == initial[key])
    {
      UnwatchedHasNoSends(key, watch, Sent(initial, watch, answers));
      UntouchedKey(initial, watch, answers, key);
    }
  }

  /** No counter decreases and no key disappears. */
  lemma {:induction false} CountersNeverDecrease(initial: SentState, watch: seq<ReleaseId>, answers: seq<Availability>)
    requires |watch| == |answers|
    ensures var final := StateAfter(initial, watch, answers);
            initial.Keys <= final.Keys
            && forall key :: key in initial ==> initial[key] <= final[key]
    decreases |watch|
  {
    if watch != [] {
      var n := |watch| - 1;
      CountersNeverDecrease(initial, watch[..n], answers[..n]);
    }
  }

  /** Whatever the watch list, even with an ID listed more than once, a
      key's final counter is at most the larger of its loaded counter and
      the limit. */
  lemma {:induction false} CounterCapped(initial: SentState, watch: seq<ReleaseId>, answers: seq<Availability>, key: string)
    requires |watch| == |answers|
    ensures Count(StateAfter(initial, watch, answers), key)
            <= if Count(initial, key) > Limit then Count(initial, key) else Limit
    decreases |watch|
  {
    if watch != [] {
      var n := |watch| - 1;
      CounterCapped(initial, watch[..n], answers[..n], key);
    }
  }

  /** A release whose counter has reached the limit gets no send attempt
      and keeps its counter, however often it is found. */
  lemma {:induction false} QuotaExhausted(initial: SentState, watch: seq<ReleaseId>, answers: seq<Availability>, key: string)
    requires |watch| == |answers|
    requires Count(initial, key) >= Limit
    ensures SendsFor(key, watch, Sent(initial, watch, answers)) == 0
    ensures var final := StateAfter(initial, watch, answers);
            (key in final <==> key in initial) && (key in initial ==> final[key] == initial[key])
  {
    CounterCapped(initial, watch, answers, key);
    OneIncrementPerAttempt(initial, watch, answers, key);
    UntouchedKey(initial, watch, answers, key);
  }

  // ---------------------------------------------------------------------
  // A release watched once

  lemma {:induction false} SendsForOnlyAt(key: string, watch: seq<ReleaseId>, sent: seq<bool>, i: nat)
    requires |watch| == |sent| && i < |watch| && KeyOf(watch[i]) == key
    requires forall j :: 0 <= j < |watch| && j != i ==> KeyOf(watch[j]) != key
    ensures SendsFor(key, watch, sent) == if sent[i] then 1 else 0
  {
    var n := |watch| - 1;
    if i < n {
      SendsForOnlyAt(key, watch[..n], sent[..n], i);
    } else {
      assert !Watched(key, watch[..n]);
      UnwatchedHasNoSends(key, watch[..n], sent[..n]);
    }
  }

  /** The exact effect of a run on a release listed once in the watch
      list: found with its counter below the limit, it gets exactly one
      send attempt and its counter goes up by one; otherwise (not found, or
      the limit reached) it gets none and its entry is left as it was. */
  lemma WatchedOnce(initial: SentState, watch: seq<ReleaseId>, answers: seq<Availability>, i: nat)
    requires |watch| == |answers| && i < |watch|
    requires forall j :: 0 <= j < |watch| && j != i ==> watch[j] != watch[i]
    ensures var key, sent, final := KeyOf(watch[i]), Sent(initial, watch, answers), StateAfter(initial, watch, answers);
            && (sent[i] <==> answers[i].Found? && Count(initial, key) < Limit)
            && SendsFor(key, watch, sent) == (if sent[i] then 1 else 0)
            && (sent[i] ==> key in final && final[key] == Count(initial, key) + 1)
            && (!sent[i] ==> (key in final <==> key in initial) && (key in initial ==> final[key] == initial[key]))
  {
    var key, sent := KeyOf(watch[i]), Sent(initial, watch, answers);
    forall j | 0 <= j < |watch| && j != i ensures KeyOf(watch[j]) != key {
      KeyOfInjective(watch[j], watch[i]);
    }
    // no entry before i touches the key, so the loop reaches i with the loaded counter
    var before := StateAfter(initial, watch[..i], answers[..i]);
    assert !Watched(key, watch[..i]);
    UnwatchedHasNoSends(key, watch[..i], Sent(initial, watch[..i], answers[..i]));
    OneIncrementPerAttempt(initial, watch[..i], answers[..i], key);
    SentExactly(initial, watch, answers, i);
    SendsForOnlyAt(key, watch, sent, i);
    OneIncrementPerAttempt(initial, watch, answers, key);
    if sent[i] {
      CountersNeverDecrease(initial, watch, answers);
    } else {
      UntouchedKey(initial, watch, answers, key);
    }
  }

  // ---------------------------------------------------------------------
  // Whole-run totals and the save decision

  /** The sum of `SendsFor` over `keys`. */
  function SendsOver(keys: seq<string>, watch: seq<ReleaseId>, sent: seq<bool>): int
    requires |watch| == |sent|
  {
    if keys == [] then 0 else SendsFor(keys[0], watch, sent) + SendsOver(keys[1..], watch, sent)
  }

  /** The total of the counter increments of `keys` between two states. */
  function Increments(keys: seq<string>, before: SentState, after: SentState): int {
    if keys == [] then 0
    else (Count(after, keys[0]) - Count(before, keys[0])) + Increments(keys[1..], before, after)
  }

  predicate Distinct(keys: seq<string>) {
    forall j, j' :: 0 <= j < j' < |keys| ==> keys[j] != keys[j']
  }

  lemma {:induction false} SendsOverStep(keys: seq<string>, watch: seq<ReleaseId>, sent: seq<bool>)
    requires |watch| == |sent| && watch != [] && Distinct(keys)
    ensures var n := |watch| - 1;
            SendsOver(keys, watch, sent)
            == SendsOver(keys, watch[..n], sent[..n])
               + (if sent[n] && KeyOf(watch[n]) in keys then 1 else 0)
  {
    if keys != [] {
      SendsOverStep(keys[1..], watch, sent);
      var n := |watch| - 1;
      if KeyOf(watch[n]) == keys[0] {
        assert KeyOf(watch[n]) !in keys[1..];
      }
    }
  }

  lemma {:induction false} SendsOverNothing(keys: seq<string>)
    ensures SendsOver(keys, [], []) == 0
  {
    if keys != [] {
      SendsOverNothing(keys[1..]);
    }
  }

  lemma {:induction false} SendsOverAll(keys: seq<string>, watch: seq<ReleaseId>, sent: seq<bool>, answers: seq<Availability>)
    requires |watch| == |sent| == |answers| && Distinct(keys)
    requires forall i :: 0 <= i < |sent| && sent[i] ==> answers[i].Found?
    requires forall i :: 0 <= i < |watch| ==> KeyOf(watch[i]) in keys
    ensures SendsOver(keys, watch, sent) == |SentMessages(answers, sent)|
  {
    if watch != [] {
      var n := |watch| - 1;
      SendsOverStep(keys, watch, sent);
      assert KeyOf(watch[n]) in keys;
      SendsOverAll(keys, watch[..n], sent[..n], answers[..n]);
      assert SentMessages(answers, sent)
             == SentMessages(answers[..n], sent[..n]) + (if sent[n] && answers[n].Found? then [answers[n].message] else []);
    } else {
      SendsOverNothing(keys);
    }
  }

  lemma {:induction false} IncrementsAreSends(keys: seq<string>, initial: SentState, watch: seq<ReleaseId>, answers: seq<Availability>)
    requires |watch| == |answers|
    ensures Increments(keys, initial, StateAfter(initial, watch, answers))
            == SendsOver(keys, watch, Sent(initial, watch, answers))
  {
    if keys != [] {
      OneIncrementPerAttempt(initial, watch, answers, keys[0]);
      IncrementsAreSends(keys[1..], initial, watch, answers);
    }
  }

  /** The number of messages sent equals the total of all counter
      increments, counted over any list of distinct keys that includes
      every watched release. */
  lemma SendsEqualIncrements(keys: seq<string>, initial: SentState, watch: seq<ReleaseId>, answers: seq<Availability>)
    requires |watch| == |answers| && Distinct(keys)
    requires forall i :: 0 <= i < |watch| ==> KeyOf(watch[i]) in keys
    ensures |SentLog(initial, watch, answers)| == Increments(keys, initial, StateAfter(initial, watch, answers))
  {
    SentLogIsMarkedMessages(initial, watch, answers);
    IncrementsAreSends(keys, initial, watch, answers);
    SendsOverAll(keys, watch, Sent(initial, watch, answers), answers);
  }

  lemma {:induction false} NoSendsNoChange(initial: SentState, watch: seq<ReleaseId>, answers: seq<Availability>)
    requires |watch| == |answers|
    requires SentMessages(answers, Sent(initial, watch, answers)) == []
    ensures StateAfter(initial, watch, answers) == initial
    decreases |watch|
  {
    if watch != [] {
      var n := |watch| - 1;
      assert Sent(initial, watch, answers)[..n] == Sent(initial, watch[..n], answers[..n]);
      NoSendsNoChange(initial, watch[..n], answers[..n]);
    }
  }

  lemma {:induction false} SomeSentPosition(answers: seq<Availability>, sent: seq<bool>) returns (i: nat)
    requires |sent| == |answers|
    requires forall i :: 0 <= i < |sent| && sent[i] ==> answers[i].Found?
    requires SentMessages(answers, sent) != []
    ensures i < |sent| && sent[i]
  {
    var n := |sent| - 1;
    if sent[n] {
      i := n;
    } else {
      i := SomeSentPosition(answers[..n], sent[..n]);
    }
  }

  /** The state changes exactly when at least one message was sent; so the
      dirty flag, which is set on every send, tells whether anything has
      to be written back. */
  lemma ChangedIffSent(initial: SentState, watch: seq<ReleaseId>, answers: seq<Availability>)
    requires |watch| == |answers|
    ensures StateAfter(initial, watch, answers) != initial <==> SentLog(initial, watch, answers) != []
  {
    SentLogIsMarkedMessages(initial, watch, answers);
    var sent := Sent(initial, watch, answers);
    if SentMessages(answers, sent) != [] {
      var i := SomeSentPosition(answers, sent);
      var key := KeyOf(watch[i]);
      SendsForAtLeastOne(key, watch, sent, i);
      OneIncrementPerAttempt(initial, watch, answers, key);
    } else {
      NoSendsNoChange(initial, watch, answers);
    }
  }

  lemma {:induction false} SendsForAtLeastOne(key: string, watch: seq<ReleaseId>, sent: seq<bool>, i: nat)
    requires |watch| == |sent| && i < |watch| && sent[i] && KeyOf(watch[i]) == key
    ensures SendsFor(key, watch, sent) >= 1
  {
    var n := |watch| - 1;
    if i < n {
      SendsForAtLeastOne(key, watch[..n], sent[..n], i);
    }
  }

  /** A run in which nothing is found sends nothing and changes nothing, so
      running it again from the state it leaves behaves identically. */
  lemma {:induction false} NothingFoundIsNoOp(initial: SentState, watch: seq<ReleaseId>, answers: seq<Availability>)
    requires |watch| == |answers|
    requires forall i :: 0 <= i < |answers| ==> answers[i] == NotFound
    ensures SentLog(initial, watch, answers) == []
    ensures StateAfter(initial, watch, answers) == initial
  {
    SentLogIsMarkedMessages(initial, watch, answers);
    var sent := Sent(initial, watch, answers);
    if SentMessages(answers, sent) != [] {
      var i := SomeSentPosition(answers, sent);
    }
    NoSendsNoChange(initial, watch, answers);
  }
}
