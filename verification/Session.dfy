/** The daemon's lock state: the identity it holds in a locked buffer, the
    auto-lock timer and the generation that ties a timer to its session. */
module Sessions {
  import opened Bytes
  import opened Vaults
  import opened VaultFile

  /** A locked memory region: whose key it holds, whether a session ever
      installed it, and how often Destroy was called on it. */
  datatype Buffer = Buffer(key: Key, installed: bool, destroyed: nat)

  /** A timer's callback has not started (Armed), never will (Stopped), or is
      running or done (Fired). */
  datatype TimerState = Armed | Stopped | Fired

  datatype Timer = Timer(gen: nat, state: TimerState)

  /** The session's fields, with every buffer and timer ever made. */
  datatype State = State(
    buf: Option<nat>,
    id: Option<Key>,
    timer: Option<nat>,
    locksAt: Option<int>,
    gen: nat,
    buffers: seq<Buffer>,
    timers: seq<Timer>)

  const LOCKED: State := State(None, None, None, None, 0, [], [])

  function StopTimer(t: Timer): Timer {
    if t.state == Armed then t.(state := Stopped) else t
  }

  /** drop: stop the timer, destroy the buffer, forget the identity. */
  function Drop(s: State): State {
    State(None, None, None, None, s.gen,
      if s.buf.Some? && s.buf.value < |s.buffers|
        then s.buffers[s.buf.value := s.buffers[s.buf.value].(destroyed := s.buffers[s.buf.value].destroyed + 1)]
        else s.buffers,
      if s.timer.Some? && s.timer.value < |s.timers|
        then s.timers[s.timer.value := StopTimer(s.timers[s.timer.value])]
        else s.timers)
  }

  /** A fresh buffer with the identity in it, not yet part of a session. */
  function Allocate(s: State, key: Key): State {
    s.(buffers := s.buffers + [Buffer(key, false, 0)])
  }

  /** Unlock's critical section after drop: a new generation takes over buffer
      b and, unless auto-lock is off, arms a timer for itself. */
  function Install(s: State, b: nat, d: int, now: int): State
    requires b < |s.buffers|
  {
    var t := s.(
      buf := Some(b),
      id := Some(s.buffers[b].key),
      gen := s.gen + 1,
      buffers := s.buffers[b := s.buffers[b].(installed := true)]);
    if d > 0
    then t.(locksAt := Some(now + d), timer := Some(|s.timers|), timers := s.timers + [Timer(s.gen + 1, Armed)])
    else t
  }

  /** Unlocked, holding an identity and having a buffer are the same; there is
      a deadline exactly while a timer is set; the current buffer is alive and
      every other one a session ever had was destroyed exactly once; only the
      current timer can still start its callback, and no two timers share a
      generation. */
  predicate Consistent(s: State) {
    && (s.buf.Some? <==> s.id.Some?)
    && (s.locksAt.Some? <==> s.timer.Some?)
    && (s.timer.Some? ==> s.buf.Some?)
    && (s.buf.Some? ==>
          && s.buf.value < |s.buffers|
          && s.buffers[s.buf.value] == Buffer(s.id.value, true, 0))
    && (forall b :: 0 <= b < |s.buffers| && s.buf != Some(b) ==>
          s.buffers[b].destroyed == if s.buffers[b].installed then 1 else 0)
    && (s.timer.Some? ==>
          && s.timer.value < |s.timers|
          && s.timers[s.timer.value].gen == s.gen
          && s.timers[s.timer.value].state != Stopped)
    && (forall i :: 0 <= i < |s.timers| && s.timer != Some(i) ==> s.timers[i].state != Armed)
    && (forall i :: 0 <= i < |s.timers| ==> s.timers[i].gen <= s.gen)
    && (forall i, j :: 0 <= i < j < |s.timers| ==> s.timers[i].gen != s.timers[j].gen)
  }

  /** Making a buffer changes nothing for the session, and dropping leaves it
      as it is. */
  lemma AllocateConsistent(s: State, key: Key)
    requires Consistent(s)
    ensures Consistent(Allocate(s, key))
    ensures |Drop(Allocate(s, key)).buffers| == |s.buffers| + 1
    ensures Drop(Allocate(s, key)).buffers[|s.buffers|] == Buffer(key, false, 0)
  {
  }

  lemma HeldTogether(s: State)
    requires Consistent(s)
    ensures s.buf == None <==> s.id == None
  {
  }

  lemma DropConsistent(s: State)
    requires Consistent(s)
    ensures Consistent(Drop(s))
    ensures Drop(s).gen == s.gen && Drop(s).buf == None && Drop(s).id == None && Drop(s).locksAt == None
    ensures forall i :: 0 <= i < |Drop(s).timers| ==> Drop(s).timers[i].state != Armed
    ensures s.buf.Some? ==> Drop(s).buffers[s.buf.value].destroyed == 1
  {
  }

  lemma InstallConsistent(s: State, b: nat, d: int, now: int)
    requires Consistent(s) && s.buf == None
    requires b < |s.buffers| && !s.buffers[b].installed
    ensures Consistent(Install(s, b, d, now))
    ensures Install(s, b, d, now).locksAt == if d > 0 then Some(now + d) else None
    ensures Install(s, b, d, now).buf == Some(b) && Install(s, b, d, now).id == Some(s.buffers[b].key)
    ensures Install(s, b, d, now).gen > s.gen
  {
  }

  /** The session object; its methods are the critical sections. `parse` reads
      an encoded secret key. */
  class Session {
    const defaultFor: int
    const parse: bytes -> Option<Key>
    var buf: Option<nat>
    var id: Option<Key>
    var timer: Option<nat>
    var locksAt: Option<int>
    var gen: nat
    var buffers: seq<Buffer>
    var timers: seq<Timer>

    ghost function View(): State
      reads this
    {
      State(buf, id, timer, locksAt, gen, buffers, timers)
    }

    ghost predicate Valid()
      reads this
    {
      Consistent(View())
    }

    constructor (defaultFor: int, parse: bytes -> Option<Key>)
      ensures Valid() && View() == LOCKED
      ensures this.defaultFor == defaultFor && this.parse == parse
    {
      this.defaultFor := defaultFor;
      this.parse := parse;
      buf, id, timer, locksAt, gen, buffers, timers := None, None, None, None, 0, [], [];
    }

    method DropAll()
      requires Valid()
      modifies this
      ensures Valid() && View() == Drop(old(View()))
    {
      DropConsistent(View());
      if timer.Some? {
        timers := timers[timer.value := StopTimer(timers[timer.value])];
        timer := None;
      }
      if buf.Some? {
        buffers := buffers[buf.value := buffers[buf.value].(destroyed := buffers[buf.value].destroyed + 1)];
        buf := None;
      }
      id := None;
      locksAt := None;
    }

    /** Unlock. `now` is the clock and `mapped` whether the locked memory
        could be had. The input is zeroed whether or not it parses. */
    method Unlock(encoded: array<byte>, lockAfter: Option<int>, now: int, mapped: bool) returns (r: Option<Error>)
      requires Valid()
      modifies this, encoded
      ensures Valid()
      ensures forall i :: 0 <= i < encoded.Length ==> encoded[i] == 0
      ensures r.Some? ==> r.value == if parse(old(encoded[..])) == None then Malformed else Broken
      ensures r.Some? ==> View() == old(View())
      ensures r == None <==> parse(old(encoded[..])).Some? && mapped
      ensures r == None ==>
                var key := parse(old(encoded[..])).value;
                var d := if lockAfter.Some? then lockAfter.value else defaultFor;
                View() == Install(Drop(Allocate(old(View()), key)), |old(buffers)|, d, now)
    {
      var key := parse(encoded[..]);
      forall i | 0 <= i < encoded.Length {
        encoded[i] := 0;
      }
      if key.None? {
        return Some(Malformed);
      }
      if !mapped {
        return Some(Broken);
      }
      var d := defaultFor;
      if lockAfter.Some? {
        d := lockAfter.value;
      }
      var b := |buffers|;
      buffers := buffers + [Buffer(key.value, false, 0)];
      AllocateConsistent(old(View()), key.value);
      DropAll();
      TakeOver(b, d, now);
      return None;
    }

    /** The new session's half of Unlock's critical section. */
    method TakeOver(b: nat, d: int, now: int)
      requires Valid() && buf == None
      requires b < |buffers| && !buffers[b].installed
      modifies this
      ensures Valid() && View() == Install(old(View()), b, d, now)
    {
      hide Consistent;
      InstallConsistent(View(), b, d, now);
      buf, id := Some(b), Some(buffers[b].key);
      buffers := buffers[b := buffers[b].(installed := true)];
      gen := gen + 1;
      if d > 0 {
        locksAt := Some(now + d);
        timer := Some(|timers|);
        timers := timers + [Timer(gen, Armed)];
      }
    }

    method Lock()
      requires Valid()
      modifies this
      ensures Valid() && buf == None && id == None && gen == old(gen)
      ensures View() == if old(buf).None? then old(View()) else Drop(old(View()))
    {
      if buf.None? {
        return;
      }
      DropAll();
    }

    /** The timer callback armed for generation g. */
    method AutoLock(g: nat)
      requires Valid()
      modifies this
      ensures Valid()
      ensures View() == if old(buf).None? || old(gen) != g then old(View()) else Drop(old(View()))
    {
      if buf.None? || gen != g {
        return;
      }
      DropAll();
    }

    method Status() returns (locked: bool, at: Option<int>)
      requires Valid()
      ensures locked <==> id == None
      ensures at == locksAt && (at.Some? ==> !locked)
    {
      return buf.None?, locksAt;
    }
  }
}
