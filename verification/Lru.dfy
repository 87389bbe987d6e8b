/** Least-recently-used replacement by serial numbers, against the whole access history. */
module Lru {

  /** A cache slot: the track it holds and the serial number of the last access to it. */
  datatype Slot = Empty | Held(track: nat, serial: nat)

  /** The 1-based position of the last access to t, 0 if there is none. */
  function LastUse(history: seq<nat>, t: nat): (n: nat)
    ensures n <= |history|
    ensures n > 0 ==> history[n - 1] == t
    ensures forall k :: n <= k < |history| ==> history[k] != t
  {
    if history == [] then 0
    else if history[|history| - 1] == t then |history|
    else LastUse(history[..|history| - 1], t)
  }

  /** The distinct tracks accessed since the last access to t. */
  ghost function UsedSince(history: seq<nat>, t: nat): set<nat> {
    set u | u in history[LastUse(history, t)..]
  }

  /** The n most recently accessed distinct tracks. */
  ghost function MostRecent(history: seq<nat>, n: nat): set<nat> {
    set t | t in history && |UsedSince(history, t)| < n
  }

  ghost predicate IsHeld(slots: seq<Slot>, t: nat) {
    exists i :: 0 <= i < |slots| && slots[i].Held? && slots[i].track == t
  }

  ghost function HeldTracks(slots: seq<Slot>): set<nat> {
    set i | 0 <= i < |slots| && slots[i].Held? :: slots[i].track
  }

  /** What the slots know about the history: serials are last uses, and a track that was dropped is
      older than everything held. */
  ghost predicate Tracks(history: seq<nat>, slots: seq<Slot>) {
    && (forall i, j :: 0 <= i < j < |slots| && slots[i].Held? && slots[j].Held? ==> slots[i].track != slots[j].track)
    && (forall i :: 0 <= i < |slots| && slots[i].Held? ==> slots[i].serial == LastUse(history, slots[i].track) > 0)
    && (forall t :: t in history && !IsHeld(slots, t) ==>
          forall i :: 0 <= i < |slots| ==> slots[i].Held? && LastUse(history, t) < slots[i].serial)
  }

  /** Slot i is where an access to t ends up: on a hit the slot of t, else an empty slot, else one
      with the smallest serial. */
  ghost predicate Chosen(slots: seq<Slot>, t: nat, i: nat) {
    && i < |slots|
    && (|| (slots[i].Held? && slots[i].track == t)
        || (&& !IsHeld(slots, t)
            && (slots[i].Held? ==> forall j :: 0 <= j < |slots| ==>
                slots[j].Held? && slots[i].serial <= slots[j].serial)))
  }

  lemma LastUseAppend(history: seq<nat>, t: nat, u: nat)
    ensures LastUse(history + [t], u) == if u == t then |history| + 1 else LastUse(history, u)
  {
    assert (history + [t])[..|history|] == history;
  }

  lemma Stays(slots: seq<Slot>, slot: Slot, i: nat, k: nat)
    requires i < |slots| && k < |slots| && slots[k].Held?
    ensures IsHeld(slots, slots[k].track)
    ensures k != i ==> IsHeld(slots[i := slot], slots[k].track)
  {
    if k != i {
      assert slots[i := slot][k] == slots[k];
    }
  }

  /** A track that was not held is older than everything held, and so is the victim. */
  lemma OlderThanOthers(history: seq<nat>, slots: seq<Slot>, i: nat, u: nat, j: nat)
    requires Tracks(history, slots) && i < |slots| && j < |slots| && j != i && u in history
    requires IsHeld(slots, u) ==>
               && slots[i].Held? && slots[i].track == u
               && forall k :: 0 <= k < |slots| ==> slots[k].Held? && slots[i].serial <= slots[k].serial
    ensures slots[j].Held? && LastUse(history, u) < slots[j].serial
  {
    if IsHeld(slots, u) {
      assert slots[j].serial == LastUse(history, slots[j].track);
      assert slots[j].track != u;
    }
  }

  /** What an access drops is its victim. */
  lemma DroppedIsVictim(slots: seq<Slot>, slot: Slot, t: nat, i: nat, u: nat)
    requires Chosen(slots, t, i) && slot.Held? && slot.track == t && u != t
    requires IsHeld(slots, u) && !IsHeld(slots[i := slot], u)
    ensures slots[i].Held? && slots[i].track == u
    ensures forall k :: 0 <= k < |slots| ==> slots[k].Held? && slots[i].serial <= slots[k].serial
  {
    var k :| 0 <= k < |slots| && slots[k].Held? && slots[k].track == u;
    Stays(slots, slot, i, k);
  }

  /** A dropped track stays older than everything held. */
  lemma AccessDropped(history: seq<nat>, slots: seq<Slot>, t: nat, i: nat, u: nat, j: nat)
    requires Tracks(history, slots) && Chosen(slots, t, i) && j < |slots|
    requires u in history && u != t
    requires !IsHeld(slots[i := Held(t, |history| + 1)], u)
    ensures slots[i := Held(t, |history| + 1)][j].Held?
    ensures LastUse(history, u) < slots[i := Held(t, |history| + 1)][j].serial
  {
    if j != i {
      if IsHeld(slots, u) {
        DroppedIsVictim(slots, Held(t, |history| + 1), t, i, u);
      }
      OlderThanOthers(history, slots, i, u, j);
    }
    hide *;
  }

  lemma Access(history: seq<nat>, slots: seq<Slot>, t: nat, i: nat)
    requires Tracks(history, slots) && Chosen(slots, t, i)
    ensures Tracks(history + [t], slots[i := Held(t, |history| + 1)])
  {
    var h, s := history + [t], slots[i := Held(t, |history| + 1)];
    forall j | 0 <= j < |s| && s[j].Held?
      ensures s[j].serial == LastUse(h, s[j].track) > 0
      ensures j != i ==> s[j].track != t
    {
      LastUseAppend(history, t, s[j].track);
      if j != i {
        Stays(slots, s[i], i, j);
      }
    }
    forall u, j | u in h && !IsHeld(s, u) && 0 <= j < |s|
      ensures s[j].Held? && LastUse(h, u) < s[j].serial
    {
      LastUseAppend(history, t, u);
      Stays(s, s[i], i, i);
      AccessDropped(history, slots, t, i, u, j);
    }
  }

  lemma HeldBound(slots: seq<Slot>)
    ensures |HeldTracks(slots)| <= |slots|
    ensures (forall i :: 0 <= i < |slots| ==> slots[i].Held?) &&
            (forall i, j :: 0 <= i < j < |slots| && slots[i].Held? && slots[j].Held? ==>
             slots[i].track != slots[j].track)
            ==> |HeldTracks(slots)| == |slots|
  {
    if |slots| > 0 {
      var n := |slots| - 1;
      HeldBound(slots[..n]);
      var prefix := HeldTracks(slots[..n]);
      if slots[n].Held? {
        assert HeldTracks(slots) == prefix + {slots[n].track};
      } else {
        assert HeldTracks(slots) == prefix;
      }
    }
  }

  lemma UsedSinceIsHeld(history: seq<nat>, slots: seq<Slot>, i: nat, u: nat)
    requires Tracks(history, slots) && i < |slots| && slots[i].Held? && u in UsedSince(history, slots[i].track)
    ensures IsHeld(slots, u) && u != slots[i].track
  {
    assert LastUse(history, u) > LastUse(history, slots[i].track);
  }

  lemma HeldIsRecent(history: seq<nat>, slots: seq<Slot>, i: nat)
    requires Tracks(history, slots) && i < |slots| && slots[i].Held?
    ensures slots[i].track in MostRecent(history, |slots|)
  {
    var t, held := slots[i].track, HeldTracks(slots);
    var since := UsedSince(history, t);
    forall u | u in since
      ensures u in held - {t}
    {
      UsedSinceIsHeld(history, slots, i, u);
    }
    HeldBound(slots);
    Subset(since, held - {t});
  }

  /** Everything held was used after the last use of a track that is not. */
  lemma HeldIsUsedSince(history: seq<nat>, slots: seq<Slot>, t: nat, i: nat)
    requires Tracks(history, slots) && t in history && !IsHeld(slots, t) && i < |slots| && slots[i].Held?
    ensures slots[i].track in UsedSince(history, t)
  {
    var u := slots[i].track;
    var n, m := LastUse(history, t), LastUse(history, u);
    assert n < m && history[m - 1] == u;
    assert history[n..][m - 1 - n] == u;
  }

  lemma RecentIsHeld(history: seq<nat>, slots: seq<Slot>, t: nat)
    requires Tracks(history, slots) && |slots| > 0 && t in MostRecent(history, |slots|)
    ensures t in HeldTracks(slots)
  {
    if !IsHeld(slots, t) {
      var held := HeldTracks(slots);
      forall i | 0 <= i < |slots| && slots[i].Held?
        ensures slots[i].track in UsedSince(history, t)
      {
        HeldIsUsedSince(history, slots, t, i);
      }
      HeldBound(slots);
      Subset(held, UsedSince(history, t));
    }
  }

  /** The held tracks are exactly the |slots| most recently accessed distinct tracks. */
  lemma HeldAreMostRecent(history: seq<nat>, slots: seq<Slot>)
    requires Tracks(history, slots) && |slots| > 0
    ensures HeldTracks(slots) == MostRecent(history, |slots|)
  {
    hide Tracks, MostRecent;
    forall i | 0 <= i < |slots| && slots[i].Held?
      ensures slots[i].track in MostRecent(history, |slots|)
    {
      HeldIsRecent(history, slots, i);
    }
    forall t | t in MostRecent(history, |slots|)
      ensures t in HeldTracks(slots)
    {
      RecentIsHeld(history, slots, t);
    }
  }

  lemma {:induction false} Subset(a: set<nat>, b: set<nat>)
    requires a <= b
    ensures |a| <= |b|
  {
    if a != {} {
      var x :| x in a;
      Subset(a - {x}, b - {x});
    }
  }
}
