/**
 The performance tracker: an append-only log of the topics of incorrectly
 answered questions, kept in the browser's key-value store, and the
 "weakest topic" suggestion derived from it by frequency.
 */
module Performance {

  import opened Options

  /** What the store holds under the performance key: nothing, a document
      that does not load, or the saved log. */
  datatype PerformanceStore = Absent | Unreadable | Saved(incorrectTopics: seq<string>)

  /** `loadPerformanceData`: a missing or unreadable document loads as the
      empty log. */
  function Load(store: PerformanceStore): (log: seq<string>)
    ensures !store.Saved? ==> log == []
  {
    match store
    case Saved(topics) => topics
    case _ => []
  }

  /** How many times `t` appears in the log. */
  function Occurrences(log: seq<string>, t: string): nat {
    multiset(log)[t]
  }

  /** `recordIncorrectAnswer`: an empty topic leaves the store alone;
      any other topic is appended to the loaded log, which is saved back. */
  function RecordIncorrectAnswer(store: PerformanceStore, topic: string): (r: PerformanceStore)
    ensures topic == [] ==> r == store
    ensures topic != [] ==>
      (&& r.Saved?
       && |Load(r)| == |Load(store)| + 1
       && Load(r)[..|Load(store)|] == Load(store)
       && Load(r)[|Load(store)|] == topic)
  {
    if topic == [] then store
    else Saved(Load(store) + [topic])
  }

  /** Recording a topic adds one to its count and leaves every other count alone. */
  lemma RecordCounts(store: PerformanceStore, topic: string, other: string)
    requires topic != []
    ensures Occurrences(Load(RecordIncorrectAnswer(store, topic)), topic)
      == Occurrences(Load(store), topic) + 1
    ensures other != topic ==>
      Occurrences(Load(RecordIncorrectAnswer(store, topic)), other) == Occurrences(Load(store), other)
  {
    var log := Load(store);
    assert Load(RecordIncorrectAnswer(store, topic)) == log + [topic];
    assert multiset(log + [topic]) == multiset(log) + multiset{topic};
  }

  /** `clearPerformanceData` removes the document. */
  function ClearPerformanceData(store: PerformanceStore): (r: PerformanceStore)
    ensures Load(r) == []
  {
    Absent
  }

  /** The index of the first appearance of `t` in the log. */
  function FirstIndex(log: seq<string>, t: string): (i: nat)
    requires t in log
    ensures i < |log| && log[i] == t
    ensures forall j | 0 <= j < i :: log[j] != t
  {
    if log[0] == t then 0 else 1 + FirstIndex(log[1..], t)
  }

  /** A prefix's first appearances are the whole log's. */
  lemma {:induction false} FirstIndexPrefix(log: seq<string>, n: nat, t: string)
    requires n <= |log| && t in log[..n]
    ensures FirstIndex(log[..n], t) == FirstIndex(log, t)
  {
    var i := FirstIndex(log[..n], t);
    var k := FirstIndex(log, t);
    assert log[i] == t;
    assert k < n;
    assert log[..n][k] == log[k];
  }

  predicate Distinct(keys: seq<string>) {
    forall i, j | 0 <= i < j < |keys| :: keys[i] != keys[j]
  }

  /** The per-topic counts `getTopicSuggestion` accumulates with `reduce`
      over the log. */
  function Tally(log: seq<string>): (counts: map<string, nat>)
    ensures forall t :: t in counts <==> t in log
    ensures forall t | t in counts :: counts[t] == Occurrences(log, t)
  {
    if |log| == 0 then map[]
    else
      var prefix := log[..|log| - 1];
      var t := log[|log| - 1];
      var counts := Tally(prefix);
      assert log == prefix + [t];
      assert multiset(log) == multiset(prefix) + multiset{t};
      counts[t := (if t in counts then counts[t] else 0) + 1]
  }

  /** The distinct topics in order of first appearance: the order in which
      `Object.keys` lists the counts object's keys (for keys that are not
      array indices). */
  function FirstSeen(log: seq<string>): (keys: seq<string>)
    ensures Distinct(keys)
    ensures forall t :: t in keys <==> t in log
    ensures forall i, j | 0 <= i < j < |keys| :: FirstIndex(log, keys[i]) < FirstIndex(log, keys[j])
  {
    if |log| == 0 then []
    else
      var prefix := log[..|log| - 1];
      var t := log[|log| - 1];
      var keys := FirstSeen(prefix);
      assert log == prefix + [t];
      forall k | k in keys ensures FirstIndex(prefix, k) == FirstIndex(log, k) {
        FirstIndexPrefix(log, |log| - 1, k);
      }
      if t in keys then keys
      else
        assert FirstIndex(log, t) == |log| - 1;
        keys + [t]
  }

  /** `Object.keys(counts).reduce((a, b) => counts[a] > counts[b] ? a : b)`:
      a maximal key, and on ties the later one, since only a strictly
      greater count keeps the accumulator. */
  function PickMax(keys: seq<string>, counts: map<string, nat>): (r: string)
    requires |keys| > 0 && Distinct(keys)
    requires forall k | k in keys :: k in counts
    ensures r in keys
    ensures forall k | k in keys :: counts[k] <= counts[r]
    ensures forall i, j | 0 <= i < j < |keys| && keys[i] == r :: counts[keys[j]] < counts[r]
  {
    if |keys| == 1 then keys[0]
    else
      var a := PickMax(keys[..|keys| - 1], counts);
      var b := keys[|keys| - 1];
      assert forall k | k in keys :: k in keys[..|keys| - 1] || k == b;
      if counts[a] > counts[b] then a else b
  }

  /** `getTopicSuggestion`: `None` (its `null`) for an empty log;
      otherwise the most frequent topic, and among equally frequent topics
      the one that first appeared last. */
  function GetTopicSuggestion(store: PerformanceStore): (r: Option<string>)
    ensures r.None? <==> |Load(store)| == 0
    ensures r.Some? ==> r.value in Load(store)
    ensures r.Some? ==> forall t | t in Load(store) ::
      Occurrences(Load(store), t) <= Occurrences(Load(store), r.value)
    ensures r.Some? ==> forall t | t in Load(store) && Occurrences(Load(store), t) == Occurrences(Load(store), r.value) ::
      FirstIndex(Load(store), t) <= FirstIndex(Load(store), r.value)
  {
    var log := Load(store);
    if |log| == 0 then None
    else
      var keys := FirstSeen(log);
      var counts := Tally(log);
      var s := PickMax(keys, counts);
      TieBreak(log, keys, counts, s);
      Some(s)
  }

  /** The key `PickMax` returns first appeared no earlier than any other key
      with the same count. */
  lemma TieBreak(log: seq<string>, keys: seq<string>, counts: map<string, nat>, s: string)
    requires keys == FirstSeen(log) && counts == Tally(log) && |keys| > 0
    requires s == PickMax(keys, counts)
    ensures forall t | t in log && Occurrences(log, t) == Occurrences(log, s) ::
      FirstIndex(log, t) <= FirstIndex(log, s)
  {
    forall t | t in log && Occurrences(log, t) == Occurrences(log, s)
      ensures FirstIndex(log, t) <= FirstIndex(log, s)
    {
      var i :| 0 <= i < |keys| && keys[i] == s;
      var j :| 0 <= j < |keys| && keys[j] == t;
      if j < i {
        assert FirstIndex(log, keys[j]) < FirstIndex(log, keys[i]);
      }
    }
  }

  /** After clearing, there is nothing to suggest. */
  lemma ClearedHasNoSuggestion(store: PerformanceStore)
    ensures GetTopicSuggestion(ClearPerformanceData(store)) == None
  {
  }

  /** `[Math, Math, History]` suggests `Math`. */
  lemma SuggestionExample()
    ensures GetTopicSuggestion(Saved(["Math", "Math", "History"])) == Some("Math")
  {
    var log := ["Math", "Math", "History"];
    ExampleKeys();
    ExampleCounts();
    ExamplePick(Tally(log));
  }

  lemma ExampleKeys()
    ensures FirstSeen(["Math", "Math", "History"]) == ["Math", "History"]
  {
    var log := ["Math", "Math", "History"];
    assert log[..2] == ["Math", "Math"];
    assert ["Math", "Math"][..1] == ["Math"];
    assert FirstSeen(["Math"]) == ["Math"];
    assert FirstSeen(["Math", "Math"]) == ["Math"];
  }

  lemma ExampleCounts()
    ensures var counts := Tally(["Math", "Math", "History"]);
      "Math" in counts && "History" in counts && counts["Math"] == 2 && counts["History"] == 1
  {
    var log := ["Math", "Math", "History"];
    assert multiset(log) == multiset{"Math", "Math", "History"};
  }

  lemma ExamplePick(counts: map<string, nat>)
    requires "Math" in counts && "History" in counts && counts["Math"] == 2 && counts["History"] == 1
    ensures PickMax(["Math", "History"], counts) == "Math"
  {
    assert ["Math", "History"][..1] == ["Math"];
  }

  /** `[Math, History]` suggests `History`, the later of two tied topics. */
  lemma TieExample()
    ensures GetTopicSuggestion(Saved(["Math", "History"])) == Some("History")
  {
    var log := ["Math", "History"];
    assert log[..1] == ["Math"];
    assert FirstSeen(log) == log;
    var counts := Tally(log);
    assert counts["Math"] == 1 && counts["History"] == 1 by {
      assert multiset(log) == multiset{"Math", "History"};
    }
    assert PickMax(log, counts) == "History";
  }
}
