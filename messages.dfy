/**
 * Service messages: whether a message is in force at a given instant, and
 * the per-line selection that keeps the newest active message per title,
 * newest first.
 */
module Messages {
  import opened Wrappers
  import opened Text
  import opened Sorting

  /** One entry of a message's `lines`; `None` for a missing key. */
  datatype LineRef = LineRef(transportType: Option<string>, lineLabel: Option<string>)

  /** One entry of `incidentDurations`, bounds in milliseconds; `None` for a missing key. */
  datatype Duration = Duration(fromMs: Option<int>, toMs: Option<int>)

  /**
   * A service message. A missing `publication` is 0, missing `lines` or
   * `incidentDurations` are empty.
   */
  datatype Message = Message(title: Option<string>, publication: int, lines: seq<LineRef>, incidentDurations: seq<Duration>)

  /** Python truthiness of a JSON number: present and non-zero. */
  predicate Truthy(v: Option<int>) {
    v.Some? && v.value != 0
  }

  /** A duration with truthy bounds that contains `now`, bounds included. */
  predicate Covers(d: Duration, now: int) {
    Truthy(d.fromMs) && Truthy(d.toMs) && d.fromMs.value <= now <= d.toMs.value
  }

  /** Some duration covers `now`. */
  predicate Active(ds: seq<Duration>, now: int) {
    exists k :: 0 <= k < |ds| && Covers(ds[k], now)
  }

  /** `is_active`: scans the durations and stops at the first that covers `now`. */
  method IsActive(ds: seq<Duration>, now: int) returns (active: bool)
    ensures active <==> Active(ds, now)
  {
    if |ds| == 0 {
      return false;
    }
    for k := 0 to |ds|
      invariant forall k' :: 0 <= k' < k ==> !Covers(ds[k'], now)
    {
      var d := ds[k];
      if d.fromMs.Some? && d.fromMs.value != 0 && d.toMs.Some? && d.toMs.value != 0
         && d.fromMs.value <= now <= d.toMs.value {
        return true;
      }
    }
    return false;
  }

  /** A line reference for the S-Bahn line `wanted`. */
  predicate Serves(l: LineRef, wanted: string) {
    (l.transportType == Some("SBAHN") || l.transportType == Some("S")) && l.lineLabel == Some(wanted)
  }

  /** One of the first `j` line references of `m` is for `wanted`. */
  predicate ServesUpTo(m: Message, wanted: string, j: nat)
    requires j <= |m.lines|
  {
    exists j' :: 0 <= j' < j && Serves(m.lines[j'], wanted)
  }

  /** A message the selection considers: it names the line and is active. */
  predicate Relevant(m: Message, wanted: string, now: int) {
    ServesUpTo(m, wanted, |m.lines|) && Active(m.incidentDurations, now)
  }

  /** The dictionary key of a message: its title, stripped, `""` when missing. */
  function Title(m: Message): string
  {
    Trim(if m.title.Some? then m.title.value else "")
  }

  /** A message's key in the `seen` dictionary; the selection uses `Title`. */
  type Key = Message -> string

  /** The position of the entry keyed `t`, if any. */
  function FindKey(seen: seq<Message>, key: Key, t: string): (r: Option<nat>)
    ensures r.Some? ==> r.value < |seen| && key(seen[r.value]) == t
                        && forall k :: 0 <= k < r.value ==> key(seen[k]) != t
    ensures r.None? ==> forall k :: 0 <= k < |seen| ==> key(seen[k]) != t
  {
    if seen == [] then None
    else if key(seen[0]) == t then Some(0)
    else
      var r := FindKey(seen[1..], key, t);
      assert forall k :: 1 <= k < |seen| ==> seen[k] == seen[1..][k - 1];
      if r.None? then None else Some(r.value + 1)
  }

  /**
   * One assignment to the `seen` dictionary, whose values are kept in
   * insertion order: a new key is appended, a known one is replaced only
   * by a strictly newer message, keeping its place.
   */
  function Update(seen: seq<Message>, key: Key, m: Message): (r: seq<Message>)
    ensures |r| == |seen| || r == seen + [m]
    ensures |r| == |seen| + 1 <==> forall k :: 0 <= k < |seen| ==> key(seen[k]) != key(m)
    ensures forall k :: 0 <= k < |seen| ==>
              (r[k] == seen[k] || (r[k] == m && key(seen[k]) == key(m) && m.publication > seen[k].publication))
  {
    var k := FindKey(seen, key, key(m));
    if k.None? then seen + [m]
    else if m.publication > seen[k.value].publication then seen[k.value := m]
    else seen
  }

  /** Storing the same message a second time changes nothing. */
  lemma UpdateIdempotent(seen: seq<Message>, key: Key, m: Message)
    ensures Update(Update(seen, key, m), key, m) == Update(seen, key, m)
  {
    var once := Update(seen, key, m);
    var k := FindKey(seen, key, key(m));
    if k.None? {
      var f := FindKey(once, key, key(m));
      assert once[|seen|] == m;
      assert f.Some?;
    } else {
      assert FindKey(once, key, key(m)) == k;
    }
  }

  // ---------------------------------------------------------------------------
  // The selection as positions in the input

  /** The messages at positions `idx`. */
  function Select(ms: seq<Message>, idx: seq<nat>): (r: seq<Message>)
    requires forall k :: 0 <= k < |idx| ==> idx[k] < |ms|
    ensures |r| == |idx| && forall k :: 0 <= k < |idx| ==> r[k] == ms[idx[k]]
  {
    seq(|idx|, k requires 0 <= k < |idx| => ms[idx[k]])
  }

  /** Appending a position appends its message: a new key of `seen` adds its value at the end. */
  lemma SelectAppend(ms: seq<Message>, idx: seq<nat>, n: nat)
    requires n < |ms| && forall k :: 0 <= k < |idx| ==> idx[k] < |ms|
    ensures Select(ms, idx + [n]) == Select(ms, idx) + [ms[n]]
  {
    var l, r := Select(ms, idx + [n]), Select(ms, idx) + [ms[n]];
    assert |l| == |r|;
    forall k | 0 <= k < |l| ensures l[k] == r[k] {
      if k < |idx| { assert (idx + [n])[k] == idx[k]; }
    }
  }

  /** Overwriting a position overwrites its message in place: a replaced value keeps its place in `seen`. */
  lemma SelectUpdate(ms: seq<Message>, idx: seq<nat>, j: nat, n: nat)
    requires n < |ms| && j < |idx| && forall k :: 0 <= k < |idx| ==> idx[k] < |ms|
    ensures Select(ms, idx[j := n]) == Select(ms, idx)[j := ms[n]]
  {
  }

  /** `Update` on positions: message `n` is stored into the entries at `idx`. */
  function StepAt(ms: seq<Message>, key: Key, idx: seq<nat>, n: nat): (r: seq<nat>)
    requires n < |ms| && forall k :: 0 <= k < |idx| ==> idx[k] < n
    ensures forall k :: 0 <= k < |r| ==> r[k] <= n
  {
    var k := FindKey(Select(ms, idx), key, key(ms[n]));
    if k.None? then idx + [n]
    else if ms[n].publication > ms[idx[k.value]].publication then idx[k.value := n]
    else idx
  }

  /** Storing on positions and then reading the messages is storing the message. */
  lemma SelectStepAt(ms: seq<Message>, key: Key, idx: seq<nat>, n: nat)
    requires n < |ms| && forall k :: 0 <= k < |idx| ==> idx[k] < n
    ensures Select(ms, StepAt(ms, key, idx, n)) == Update(Select(ms, idx), key, ms[n])
  {
    var seen := Select(ms, idx);
    var k := FindKey(seen, key, key(ms[n]));
    if k.None? {
      assert Select(ms, idx + [n]) == seen + [ms[n]];
    } else if ms[n].publication > ms[idx[k.value]].publication {
      assert Select(ms, idx[k.value := n]) == seen[k.value := ms[n]];
    }
  }

  /** The positions of the `seen` entries after the first `n` messages, storing those `keep` accepts. */
  function DedupAt(ms: seq<Message>, keep: Message -> bool, key: Key, n: nat): (r: seq<nat>)
    requires n <= |ms|
    ensures forall k :: 0 <= k < |r| ==> r[k] < n
  {
    if n == 0 then []
    else
      var before := DedupAt(ms, keep, key, n - 1);
      if keep(ms[n - 1]) then StepAt(ms, key, before, n - 1) else before
  }

  /** The messages `filter_line_messages` stores: those naming the line and active at `now`. */
  function RelevantTo(wanted: string, now: int): Message -> bool
  {
    m => Relevant(m, wanted, now)
  }

  /** The values of `seen` once every message has been looked at. */
  function Dedup(ms: seq<Message>, wanted: string, now: int): seq<Message>
  {
    Select(ms, DedupAt(ms, RelevantTo(wanted, now), Title, |ms|))
  }

  /** The sort key of `sorted(..., reverse=True)` on `publication`. */
  function NewestFirst(m: Message): int {
    -m.publication
  }

  /** `filter_line_messages`, as a value. */
  function Selection(ms: seq<Message>, wanted: string, now: int): seq<Message>
  {
    SortBy(Dedup(ms, wanted, now), NewestFirst)
  }

  /** `filter_line_messages`: the loop over the messages filling `seen` (its inner loop is `StoreMessage`), then the newest-first sort. */
  method FilterLineMessages(ms: seq<Message>, wanted: string, now: int) returns (out: seq<Message>)
    ensures out == Selection(ms, wanted, now)
  {
    var seen: seq<Message> := [];
    for i := 0 to |ms|
      invariant seen == Select(ms, DedupAt(ms, RelevantTo(wanted, now), Title, i))
    {
      SeenStep(ms, wanted, now, i);
      seen := StoreMessage(seen, ms[i], wanted, now);
    }
    out := SortBy(seen, NewestFirst);
  }

  /**
   * The inner loop of `filter_line_messages` for one message: for each line
   * reference naming the S-Bahn line, an active message is stored under its
   * title. Storing it again changes nothing, so the result is one store when
   * the message is relevant.
   */
  method StoreMessage(seen: seq<Message>, msg: Message, wanted: string, now: int) returns (r: seq<Message>)
    ensures r == if Relevant(msg, wanted, now) then Update(seen, Title, msg) else seen
  {
    r := seen;
    for j := 0 to |msg.lines|
      invariant r == if ServesUpTo(msg, wanted, j) && Active(msg.incidentDurations, now) then Update(seen, Title, msg) else seen
    {
      var line := msg.lines[j];
      if (line.transportType == Some("SBAHN") || line.transportType == Some("S")) && line.lineLabel == Some(wanted) {
        var active := IsActive(msg.incidentDurations, now);
        if active {
          UpdateIdempotent(seen, Title, msg);
          r := Update(r, Title, msg);
        }
      }
    }
  }

  // ---------------------------------------------------------------------------
  // What the selection guarantees

  /**
   * The three ways of storing message `n`: appended (`k0 == -1`) when no
   * entry has its key, otherwise entry `k0` has its key and is replaced
   * exactly when message `n` is strictly newer.
   */
  lemma StepAtCase(ms: seq<Message>, key: Key, idx: seq<nat>, n: nat) returns (k0: int)
    requires n < |ms| && forall k :: 0 <= k < |idx| ==> idx[k] < n
    ensures -1 <= k0 < |idx|
    ensures var r := StepAt(ms, key, idx, n);
            |idx| <= |r| && forall k :: 0 <= k < |r| ==> r[k] == n || (k < |idx| && r[k] == idx[k])
    ensures k0 == -1 ==> StepAt(ms, key, idx, n) == idx + [n]
                         && forall k :: 0 <= k < |idx| ==> key(ms[idx[k]]) != key(ms[n])
    ensures k0 >= 0 ==> key(ms[idx[k0]]) == key(ms[n])
                        && StepAt(ms, key, idx, n) == if ms[n].publication > ms[idx[k0]].publication then idx[k0 := n] else idx
  {
    var seen := Select(ms, idx);
    var f := FindKey(seen, key, key(ms[n]));
    if f.None? {
      k0 := -1;
      forall k | 0 <= k < |idx| ensures key(ms[idx[k]]) != key(ms[n]) {
        assert seen[k] == ms[idx[k]];
      }
    } else {
      k0 := f.value;
    }
  }

  /** One more message: stored when kept, skipped otherwise. */
  lemma DedupAtStep(ms: seq<Message>, keep: Message -> bool, key: Key, n: nat)
    requires 0 < n <= |ms|
    ensures DedupAt(ms, keep, key, n) ==
            if keep(ms[n - 1]) then StepAt(ms, key, DedupAt(ms, keep, key, n - 1), n - 1)
            else DedupAt(ms, keep, key, n - 1)
  {
  }

  /** The values of `seen` after message `i`: stored when it is relevant, unchanged otherwise. */
  lemma SeenStep(ms: seq<Message>, wanted: string, now: int, i: nat)
    requires i < |ms|
    ensures var keep := RelevantTo(wanted, now);
            var before := Select(ms, DedupAt(ms, keep, Title, i));
            Select(ms, DedupAt(ms, keep, Title, i + 1)) == if Relevant(ms[i], wanted, now) then Update(before, Title, ms[i]) else before
  {
    var keep := RelevantTo(wanted, now);
    DedupAtStep(ms, keep, Title, i + 1);
    SelectStepAt(ms, Title, DedupAt(ms, keep, Title, i), i);
    assert keep(ms[i]) == Relevant(ms[i], wanted, now);
  }

  /** Every entry is a kept message. */
  lemma {:induction false} DedupKept(ms: seq<Message>, keep: Message -> bool, key: Key, n: nat) returns (idx: seq<nat>)
    requires n <= |ms|
    ensures idx == DedupAt(ms, keep, key, n)
    ensures forall k :: 0 <= k < |idx| ==> keep(ms[idx[k]])
  {
    idx := DedupAt(ms, keep, key, n);
    if n > 0 {
      var before := DedupKept(ms, keep, key, n - 1);
      DedupAtStep(ms, keep, key, n);
      if keep(ms[n - 1]) {
        var k0 := StepAtCase(ms, key, before, n - 1);
      }
    }
  }

  /** No two entries share a key. */
  lemma {:induction false} DedupDistinct(ms: seq<Message>, keep: Message -> bool, key: Key, n: nat) returns (idx: seq<nat>)
    requires n <= |ms|
    ensures idx == DedupAt(ms, keep, key, n)
    ensures forall k1, k2 :: 0 <= k1 < k2 < |idx| ==> key(ms[idx[k1]]) != key(ms[idx[k2]])
  {
    idx := DedupAt(ms, keep, key, n);
    if n > 0 {
      var before := DedupDistinct(ms, keep, key, n - 1);
      DedupAtStep(ms, keep, key, n);
      if keep(ms[n - 1]) {
        var k0 := StepAtCase(ms, key, before, n - 1);
        var r := StepAt(ms, key, before, n - 1);
        forall k1, k2 | 0 <= k1 < k2 < |r| ensures key(ms[r[k1]]) != key(ms[r[k2]]) {
          if k0 == -1 && k2 == |before| {
            assert key(ms[before[k1]]) != key(ms[n - 1]);
          } else {
            assert key(ms[r[k1]]) == key(ms[before[k1]]) && key(ms[r[k2]]) == key(ms[before[k2]]);
          }
        }
      }
    }
  }

  /** Every kept message among the first `n` has an entry with its key: entry `k`. */
  lemma {:induction false} DedupCovers(ms: seq<Message>, keep: Message -> bool, key: Key, n: nat, i: nat) returns (k: nat)
    requires i < n <= |ms| && keep(ms[i])
    ensures k < |DedupAt(ms, keep, key, n)| && key(ms[DedupAt(ms, keep, key, n)[k]]) == key(ms[i])
  {
    var before := DedupAt(ms, keep, key, n - 1);
    DedupAtStep(ms, keep, key, n);
    if i == n - 1 {
      var k0 := StepAtCase(ms, key, before, n - 1);
      k := if k0 == -1 then |before| else k0;
    } else {
      k := DedupCovers(ms, keep, key, n - 1, i);
      if keep(ms[n - 1]) {
        var k0 := StepAtCase(ms, key, before, n - 1);
      }
    }
  }

  /** A kept message whose key has no entry yet differs in key from every earlier kept message. */
  lemma FreshKey(ms: seq<Message>, keep: Message -> bool, key: Key, idx: seq<nat>, n: nat)
    requires n < |ms| && idx == DedupAt(ms, keep, key, n)
    requires forall k :: 0 <= k < |idx| ==> key(ms[idx[k]]) != key(ms[n])
    ensures forall i :: 0 <= i < n && keep(ms[i]) ==> key(ms[i]) != key(ms[n])
  {
    forall i | 0 <= i < n && keep(ms[i]) ensures key(ms[i]) != key(ms[n]) {
      var k := DedupCovers(ms, keep, key, n, i);
    }
  }

  /** Entries at `idx` carry the greatest publication among the first `n` kept messages of their key. */
  ghost predicate NewestAt(ms: seq<Message>, keep: Message -> bool, key: Key, idx: seq<nat>, n: nat)
    requires n <= |ms| && forall k :: 0 <= k < |idx| ==> idx[k] < |ms|
  {
    forall k, i :: 0 <= k < |idx| && 0 <= i < n && keep(ms[i]) && key(ms[i]) == key(ms[idx[k]])
      ==> ms[i].publication <= ms[idx[k]].publication
  }

  /** A message with a fresh key, appended, is the newest of its key. */
  lemma NewestAppend(ms: seq<Message>, keep: Message -> bool, key: Key, idx: seq<nat>, n: nat)
    requires n < |ms| && forall k :: 0 <= k < |idx| ==> idx[k] < n
    requires NewestAt(ms, keep, key, idx, n)
    requires forall k :: 0 <= k < |idx| ==> key(ms[idx[k]]) != key(ms[n])
    requires forall i :: 0 <= i < n && keep(ms[i]) ==> key(ms[i]) != key(ms[n])
    ensures NewestAt(ms, keep, key, idx + [n], n + 1)
  {
    var r := idx + [n];
    forall k, i | 0 <= k < |r| && 0 <= i < n + 1 && keep(ms[i]) && key(ms[i]) == key(ms[r[k]])
      ensures ms[i].publication <= ms[r[k]].publication
    {
      if k < |idx| {
        assert r[k] == idx[k];
      }
    }
  }

  /** A strictly newer message replacing the entry of its key keeps every entry the newest. */
  lemma NewestReplace(ms: seq<Message>, keep: Message -> bool, key: Key, idx: seq<nat>, n: nat, k0: nat)
    requires n < |ms| && forall k :: 0 <= k < |idx| ==> idx[k] < n
    requires NewestAt(ms, keep, key, idx, n)
    requires forall k1, k2 :: 0 <= k1 < k2 < |idx| ==> key(ms[idx[k1]]) != key(ms[idx[k2]])
    requires k0 < |idx| && key(ms[idx[k0]]) == key(ms[n]) && ms[n].publication > ms[idx[k0]].publication
    ensures NewestAt(ms, keep, key, idx[k0 := n], n + 1)
  {
    var r := idx[k0 := n];
    forall k, i | 0 <= k < |r| && 0 <= i < n + 1 && keep(ms[i]) && key(ms[i]) == key(ms[r[k]])
      ensures ms[i].publication <= ms[r[k]].publication
    {
      if k == k0 {
        if i < n {
          assert ms[i].publication <= ms[idx[k0]].publication;
        }
      } else {
        assert r[k] == idx[k];
        if i == n {
          assert false;
        }
      }
    }
  }

  /** A message no newer than the entry of its key changes nothing. */
  lemma NewestSkip(ms: seq<Message>, keep: Message -> bool, key: Key, idx: seq<nat>, n: nat, k0: nat)
    requires n < |ms| && forall k :: 0 <= k < |idx| ==> idx[k] < n
    requires NewestAt(ms, keep, key, idx, n)
    requires forall k1, k2 :: 0 <= k1 < k2 < |idx| ==> key(ms[idx[k1]]) != key(ms[idx[k2]])
    requires k0 < |idx| && key(ms[idx[k0]]) == key(ms[n]) && ms[n].publication <= ms[idx[k0]].publication
    ensures NewestAt(ms, keep, key, idx, n + 1)
  {
    forall k, i | 0 <= k < |idx| && 0 <= i < n + 1 && keep(ms[i]) && key(ms[i]) == key(ms[idx[k]])
      ensures ms[i].publication <= ms[idx[k]].publication
    {
      if i == n && k != k0 {
        assert false;
      }
    }
  }

  /** Each entry carries the greatest publication among the kept messages of its key. */
  lemma {:induction false} DedupNewest(ms: seq<Message>, keep: Message -> bool, key: Key, n: nat) returns (idx: seq<nat>)
    requires n <= |ms|
    ensures idx == DedupAt(ms, keep, key, n)
    ensures NewestAt(ms, keep, key, idx, n)
  {
    idx := DedupAt(ms, keep, key, n);
    if n > 0 {
      var before := DedupNewest(ms, keep, key, n - 1);
      DedupAtStep(ms, keep, key, n);
      if keep(ms[n - 1]) {
        var _ := DedupDistinct(ms, keep, key, n - 1);
        var k0 := StepAtCase(ms, key, before, n - 1);
        if k0 == -1 {
          FreshKey(ms, keep, key, before, n - 1);
          NewestAppend(ms, keep, key, before, n - 1);
        } else if ms[n - 1].publication > ms[before[k0]].publication {
          NewestReplace(ms, keep, key, before, n - 1, k0);
        } else {
          NewestSkip(ms, keep, key, before, n - 1, k0);
        }
      } else {
        assert NewestAt(ms, keep, key, before, n - 1);
        forall k, i | 0 <= k < |idx| && 0 <= i < n && keep(ms[i]) && key(ms[i]) == key(ms[idx[k]])
          ensures ms[i].publication <= ms[idx[k]].publication
        {
        }
      }
    }
  }

  /** Every earlier kept message with an entry's key is strictly older than it. */
  lemma {:induction false} DedupFirst(ms: seq<Message>, keep: Message -> bool, key: Key, n: nat) returns (idx: seq<nat>)
    requires n <= |ms|
    ensures idx == DedupAt(ms, keep, key, n)
    ensures forall k, i :: 0 <= k < |idx| && 0 <= i < idx[k] && keep(ms[i]) && key(ms[i]) == key(ms[idx[k]])
              ==> ms[i].publication < ms[idx[k]].publication
  {
    idx := DedupAt(ms, keep, key, n);
    if n > 0 {
      var before := DedupFirst(ms, keep, key, n - 1);
      DedupAtStep(ms, keep, key, n);
      if keep(ms[n - 1]) {
        var _ := DedupNewest(ms, keep, key, n - 1);
        var k0 := StepAtCase(ms, key, before, n - 1);
        var r := StepAt(ms, key, before, n - 1);
        if k0 == -1 {
          FreshKey(ms, keep, key, before, n - 1);
        }
        forall k, i | 0 <= k < |r| && 0 <= i < r[k] && keep(ms[i]) && key(ms[i]) == key(ms[r[k]])
          ensures ms[i].publication < ms[r[k]].publication
        {
          if k0 == -1 {
            if k == |before| {
              assert false;
            }
          } else if k == k0 && r[k] == n - 1 {
            assert ms[i].publication <= ms[before[k0]].publication;
          }
        }
      }
    }
  }

  // ---------------------------------------------------------------------------
  // The same guarantees, for `filter_line_messages`

  /** The selection is ordered by publication, newest first. */
  lemma SelectionNewestFirst(ms: seq<Message>, wanted: string, now: int)
    ensures var out := Selection(ms, wanted, now);
            forall i, j :: 0 <= i < j < |out| ==> out[i].publication >= out[j].publication
  {
    var out := Selection(ms, wanted, now);
    forall i, j | 0 <= i < j < |out| ensures out[i].publication >= out[j].publication {
      assert NewestFirst(out[i]) <= NewestFirst(out[j]);
    }
  }

  /** Every message of the selection is an input message that names the line and is active. */
  lemma SelectionRelevant(ms: seq<Message>, wanted: string, now: int)
    ensures var out := Selection(ms, wanted, now);
            forall m :: m in out ==> m in ms && Relevant(m, wanted, now)
  {
    var keep := RelevantTo(wanted, now);
    var idx := DedupKept(ms, keep, Title, |ms|);
    var d := Dedup(ms, wanted, now);
    assert d == Select(ms, idx);
    forall m | m in Selection(ms, wanted, now) ensures m in ms && Relevant(m, wanted, now) {
      assert m in multiset(d);
      var k :| 0 <= k < |d| && d[k] == m;
      assert m == ms[idx[k]] && keep(ms[idx[k]]);
    }
  }

  /** No two messages of the selection share a title. */
  lemma SelectionDistinctTitles(ms: seq<Message>, wanted: string, now: int)
    ensures var out := Selection(ms, wanted, now);
            forall i, j :: 0 <= i < j < |out| ==> Title(out[i]) != Title(out[j])
  {
    var keep := RelevantTo(wanted, now);
    var idx := DedupDistinct(ms, keep, Title, |ms|);
    var d := Dedup(ms, wanted, now);
    assert d == Select(ms, idx);
    assert DistinctBy(d, Title);
    SortKeepsDistinct(d, NewestFirst, Title);
  }

  /** Every relevant input message is represented by a selected message with its title that is at least as new. */
  lemma SelectionCovers(ms: seq<Message>, wanted: string, now: int, i: nat) returns (k: nat)
    requires i < |ms| && Relevant(ms[i], wanted, now)
    ensures var out := Selection(ms, wanted, now);
            k < |out| && Title(out[k]) == Title(ms[i]) && ms[i].publication <= out[k].publication
  {
    var keep := RelevantTo(wanted, now);
    var idx := DedupNewest(ms, keep, Title, |ms|);
    var d := Dedup(ms, wanted, now);
    assert d == Select(ms, idx);
    var out := Selection(ms, wanted, now);
    assert keep(ms[i]);
    var k' := DedupCovers(ms, keep, Title, |ms|, i);
    assert d[k'] in multiset(out);
    k :| 0 <= k < |out| && out[k] == d[k'];
  }

  /**
   * Every selected message is, among the relevant input messages with its
   * title, one with the greatest publication, and the first such in input
   * order.
   */
  lemma SelectionEntry(ms: seq<Message>, wanted: string, now: int, k: nat) returns (p: nat)
    requires k < |Selection(ms, wanted, now)|
    ensures p < |ms| && Selection(ms, wanted, now)[k] == ms[p] && Relevant(ms[p], wanted, now)
    ensures forall j :: 0 <= j < |ms| && Relevant(ms[j], wanted, now) && Title(ms[j]) == Title(ms[p]) ==>
              ms[j].publication <= ms[p].publication && (j < p ==> ms[j].publication < ms[p].publication)
  {
    var keep := RelevantTo(wanted, now);
    var idx := DedupKept(ms, keep, Title, |ms|);
    var _ := DedupNewest(ms, keep, Title, |ms|);
    var _ := DedupFirst(ms, keep, Title, |ms|);
    var d := Dedup(ms, wanted, now);
    assert d == Select(ms, idx);
    var out := Selection(ms, wanted, now);
    assert out[k] in multiset(d);
    var k' :| 0 <= k' < |d| && d[k'] == out[k];
    p := idx[k'];
    assert keep(ms[p]);
    forall j | 0 <= j < |ms| && Relevant(ms[j], wanted, now) && Title(ms[j]) == Title(ms[p])
      ensures ms[j].publication <= ms[p].publication && (j < p ==> ms[j].publication < ms[p].publication)
    {
      assert keep(ms[j]);
    }
  }
}
