/**
 * The activity log: a newest-first list of operator actions holding at most
 * one hundred entries. Each call puts the new entry in front and, once the
 * list has grown past the cap, drops the last (oldest) one.
 */
module ActivityLog {

  const Capacity := 100

  /** One logged action; `time` is the caller's formatted clock reading. */
  datatype Entry = Entry(time: string, user: string, action: string, detail: string)

  function Min(a: int, b: int): int {
    if a < b then a else b
  }

  /**
   * The list after logging `e`: `e` first, then the old entries in their
   * order, the oldest one dropped once the list exceeds the cap.
   */
  function Logged(log: seq<Entry>, e: Entry): (r: seq<Entry>)
    ensures |r| == if |log| < Capacity then |log| + 1 else |log|
    ensures r[0] == e
    ensures r[1..] == log[..|r| - 1]
  {
    var grown := [e] + log;
    if |grown| > Capacity then grown[..|grown| - 1] else grown
  }

  /** The list after logging each of `es` in turn, `es[0]` first. */
  function LoggedAll(log: seq<Entry>, es: seq<Entry>): seq<Entry>
    decreases |es|
  {
    if es == [] then log else LoggedAll(Logged(log, es[0]), es[1..])
  }

  /** `es` newest first. */
  function Reversed(es: seq<Entry>): (r: seq<Entry>)
    ensures |r| == |es|
    ensures forall i :: 0 <= i < |es| ==> r[i] == es[|es| - 1 - i]
  {
    if es == [] then [] else Reversed(es[1..]) + [es[0]]
  }

  /**
   * Starting from a list within the cap, logging `es` leaves the newest
   * entries first, then the old list, cut to the cap.
   */
  lemma {:induction false} LoggedAllKeepsNewest(log: seq<Entry>, es: seq<Entry>)
    requires |log| <= Capacity
    ensures LoggedAll(log, es) == (Reversed(es) + log)[..Min(Capacity, |es| + |log|)]
    decreases |es|
  {
    if es != [] {
      var once := Logged(log, es[0]);
      LoggedAllKeepsNewest(once, es[1..]);
      var front := Reversed(es[1..]);
      assert Reversed(es) == front + [es[0]];
      LoggedBehind(front, es[0], log);
    }
  }

  /** Entries already in front of the list see one more logged entry as the cap-cut list with it put first. */
  lemma LoggedBehind(front: seq<Entry>, e: Entry, log: seq<Entry>)
    requires |log| <= Capacity
    ensures (front + Logged(log, e))[..Min(Capacity, |front| + |Logged(log, e)|)] ==
            (front + [e] + log)[..Min(Capacity, |front| + 1 + |log|)]
  {
    var once := Logged(log, e);
    var k := Min(Capacity, |front| + 1 + |log|);
    assert Min(Capacity, |front| + |once|) == k;
    forall i | 0 <= i < k ensures (front + once)[i] == (front + [e] + log)[i] {
      if i > |front| {
        assert (front + once)[i] == once[i - |front|] == log[i - |front| - 1];
      }
    }
  }

  /** One more entry on a log that holds the newest of `done`: the log then holds the newest of `done + [e]`. */
  lemma LoggedNewest(done: seq<Entry>, e: Entry, log: seq<Entry>)
    requires log == Reversed(done)[..Min(Capacity, |done|)]
    ensures Logged(log, e) == Reversed(done + [e])[..Min(Capacity, |done| + 1)]
  {
    ReversedSnoc(done, e);
    LoggedFront(Reversed(done), e, log);
  }

  lemma ReversedSnoc(done: seq<Entry>, e: Entry)
    ensures Reversed(done + [e]) == [e] + Reversed(done)
  {
    var r := Reversed(done + [e]);
    var back := Reversed(done);
    forall i | 1 <= i < |r| ensures r[i] == back[i - 1] {
      assert r[i] == (done + [e])[|done| - i];
    }
  }

  /** Logging onto the cap-cut prefix of `back` gives the cap-cut prefix of `[e] + back`. */
  lemma LoggedFront(back: seq<Entry>, e: Entry, log: seq<Entry>)
    requires log == back[..Min(Capacity, |back|)]
    ensures Logged(log, e) == ([e] + back)[..Min(Capacity, |back| + 1)]
  {
    var once := Logged(log, e);
    var m := Min(Capacity, |back| + 1);
    assert |once| == m;
    forall i | 0 <= i < m ensures once[i] == ([e] + back)[i] {
      if i > 0 {
        assert once[i] == once[1..][i - 1] == log[i - 1];
      }
    }
  }

  /** The log as the handlers share it. */
  class Log {
    var entries: seq<Entry>

    ghost predicate Valid()
      reads this
    {
      |entries| <= Capacity
    }

    constructor ()
      ensures Valid() && entries == []
    {
      entries := [];
    }

    /** `log_activity`: insert at the front, then pop the last entry past the cap. */
    method Append(e: Entry)
      requires Valid()
      modifies this
      ensures Valid()
      ensures entries == Logged(old(entries), e)
    {
      entries := [e] + entries;
      if |entries| > Capacity {
        entries := entries[..|entries| - 1];
      }
    }
  }

  /**
   * Logging a run of entries into a fresh log keeps the hundred newest, newest
   * first; after 105 entries, exactly the last hundred of them.
   */
  method LogRun(es: seq<Entry>) returns (kept: seq<Entry>)
    ensures kept == Reversed(es)[..Min(Capacity, |es|)]
    ensures |es| == 105 ==> kept == Reversed(es[5..])
  {
    var log := new Log();
    var i := 0;
    while i < |es|
      invariant 0 <= i <= |es|
      invariant log.Valid()
      invariant log.entries == Reversed(es[..i])[..Min(Capacity, i)]
    {
      assert es[..i + 1] == es[..i] + [es[i]];
      LoggedNewest(es[..i], es[i], log.entries);
      log.Append(es[i]);
      i := i + 1;
    }
    assert es[..i] == es;
    kept := log.entries;
    if |es| == 105 {
      assert Reversed(es)[..100] == Reversed(es[5..]);
    }
  }
}
