/** The bounded "recent voters" feed: at most ten entries, newest first. */
module RecentVoters {
  import opened Battle

  /** How many entries the feed keeps. */
  const Capacity: nat := 10

  function Min(a: int, b: int): int {
    if a <= b then a else b
  }

  /** Puts `entry` in front of the first nine entries of `log` (`[entry, ...log.slice(0, 9)]`). */
  function Prepend10(entry: VoterEvent, log: seq<VoterEvent>): (r: seq<VoterEvent>)
    ensures |r| == Min(|log| + 1, Capacity)
    ensures r[0] == entry
    ensures forall i :: 1 <= i < |r| ==> r[i] == log[i - 1]
  {
    [entry] + log[..Min(Capacity - 1, |log|)]
  }

  /** `s` back to front. */
  function Reverse<T>(s: seq<T>): seq<T> {
    if s == [] then [] else Reverse(s[1..]) + [s[0]]
  }

  lemma {:induction false} ReverseAt<T>(s: seq<T>, k: nat)
    requires k < |s|
    ensures |Reverse(s)| == |s| && Reverse(s)[k] == s[|s| - 1 - k]
  {
    ReverseLength(s);
    if k < |s| - 1 {
      ReverseAt(s[1..], k);
    }
  }

  lemma {:induction false} ReverseLength<T>(s: seq<T>)
    ensures |Reverse(s)| == |s|
  {
    if s != [] {
      ReverseLength(s[1..]);
    }
  }

  lemma {:induction false} ReverseSnoc<T>(s: seq<T>, x: T)
    ensures Reverse(s + [x]) == [x] + Reverse(s)
  {
    if s == [] {
      assert s + [x] == [x];
    } else {
      assert (s + [x])[1..] == s[1..] + [x];
      ReverseSnoc(s[1..], x);
    }
  }

  /** The reference meaning of the feed: the `Capacity` most recent events of `history` (oldest
      first), listed newest first. */
  function Newest(history: seq<VoterEvent>): seq<VoterEvent> {
    ReverseLength(history);
    Reverse(history)[..Min(|history|, Capacity)]
  }

  /** Prepending one event to the feed of a history gives the feed of the extended history. */
  lemma {:induction false} PrependKeepsNewest(history: seq<VoterEvent>, e: VoterEvent)
    ensures Prepend10(e, Newest(history)) == Newest(history + [e])
  {
    ReverseSnoc(history, e);
    ReverseLength(history);
    var r := Reverse(history);
    var n := Min(|history|, Capacity);
    assert Newest(history + [e]) == ([e] + r)[..Min(|history| + 1, Capacity)];
    assert Newest(history) == r[..n];
    assert r[..n][..Min(Capacity - 1, n)] == r[..Min(Capacity - 1, |history|)];
    assert ([e] + r)[..Min(|history| + 1, Capacity)] == [e] + r[..Min(Capacity - 1, |history|)];
  }

  /** The feed of any history holds at most `Capacity` entries, entry 0 is the newest event, and
      entry `i` is the event `i` places before the newest. */
  lemma {:induction false} NewestFirst(history: seq<VoterEvent>)
    ensures |Newest(history)| == Min(|history|, Capacity) <= Capacity
    ensures history != [] ==> Newest(history)[0] == history[|history| - 1]
    ensures forall i :: 0 <= i < |Newest(history)| ==> Newest(history)[i] == history[|history| - 1 - i]
  {
    ReverseLength(history);
    forall i | 0 <= i < |Newest(history)|
      ensures Newest(history)[i] == history[|history| - 1 - i]
    {
      ReverseAt(history, i);
    }
  }
}
