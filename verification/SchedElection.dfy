/** What find_next_task elects, and how long a task that is never outranked can wait. */
module SchedElection {
  import opened Bytes
  import opened SchedModel

  /** How many slots after `cur` the slot `c` is met: 1 to MAX_TASKS. */
  function Distance(cur: nat, c: nat): int {
    if c > cur then c - cur else c - cur + MAX_TASKS
  }

  lemma DistanceAt(cur: nat, k: nat)
    requires cur < MAX_TASKS && 1 <= k <= MAX_TASKS
    ensures SlotAfter(cur, k) < MAX_TASKS && Distance(cur, SlotAfter(cur, k)) == k
  {
  }

  lemma AtDistance(cur: nat, c: nat)
    requires cur < MAX_TASKS && c < MAX_TASKS
    ensures 1 <= Distance(cur, c) <= MAX_TASKS && SlotAfter(cur, Distance(cur, c)) == c
  {
  }

  predicate Contends(t: Task) {
    Ready(t) && t.priority >= 0
  }

  /** `e` wins over `t` at distance `k`: higher priority, or same priority and met no later. */
  predicate Beats(tasks: seq<Task>, cur: nat, e: nat, c: nat)
    requires e < |tasks| && c < |tasks|
  {
    Ready(tasks[c]) ==>
      && tasks[c].priority <= tasks[e].priority
      && (tasks[c].priority == tasks[e].priority ==> Distance(cur, e) <= Distance(cur, c))
  }

  lemma {:induction false} ScanSpec(tasks: seq<Task>, cur: nat, i: nat)
    requires |tasks| == MAX_TASKS && cur < MAX_TASKS && i <= MAX_TASKS
    ensures var e := Scan(tasks, cur, i);
      && (e < 0 ==> forall c :: 0 <= c < MAX_TASKS && Distance(cur, c) <= i ==> !Contends(tasks[c]))
      && (e >= 0 ==> Contends(tasks[e]) && Distance(cur, e) <= i
                     && forall c :: 0 <= c < MAX_TASKS && Distance(cur, c) <= i ==> Beats(tasks, cur, e, c))
  {
    if i > 0 {
      ScanSpec(tasks, cur, i - 1);
      DistanceAt(cur, i);
      var a := SlotAfter(cur, i);
      forall c | 0 <= c < MAX_TASKS && Distance(cur, c) == i
        ensures c == a
      {
        AtDistance(cur, c);
      }
    }
  }

  /**
    The first pass elects nobody exactly when no ready task has priority >= 0; otherwise it elects
    a ready task of highest priority, the first such after the current one.
  */
  lemma FirstPass(tasks: seq<Task>, cur: nat)
    requires |tasks| == MAX_TASKS && cur < MAX_TASKS
    ensures var e := Scan(tasks, cur, MAX_TASKS);
      && (e < 0 <==> forall c :: 0 <= c < MAX_TASKS ==> !Contends(tasks[c]))
      && (e >= 0 ==> Contends(tasks[e]) && forall c :: 0 <= c < MAX_TASKS ==> Beats(tasks, cur, e, c))
  {
    ScanSpec(tasks, cur, MAX_TASKS);
    forall c | 0 <= c < MAX_TASKS
      ensures Distance(cur, c) <= MAX_TASKS
    {
      AtDistance(cur, c);
    }
  }

  /** Exactly when the elected task is awake: a contender exists, or the first active task happens to be awake. */
  lemma ElectsAwake(tasks: seq<Task>, cur: nat)
    requires |tasks| == MAX_TASKS && cur < MAX_TASKS && Elect(tasks, cur) >= 0
    ensures tasks[Elect(tasks, cur)].active
    ensures Ready(tasks[Elect(tasks, cur)]) <==>
            (exists c :: 0 <= c < MAX_TASKS && Contends(tasks[c])) || Ready(tasks[FirstActive(tasks)])
  {
    FirstPass(tasks, cur);
    if Scan(tasks, cur, MAX_TASKS) >= 0 {
      assert Contends(tasks[Scan(tasks, cur, MAX_TASKS)]);
    }
  }

  lemma ElectsActive(tasks: seq<Task>, cur: nat)
    requires |tasks| == MAX_TASKS && cur < MAX_TASKS
    ensures Elect(tasks, cur) >= 0 ==> tasks[Elect(tasks, cur)].active
    ensures Elect(tasks, cur) < 0 <==> forall i :: 0 <= i < MAX_TASKS ==> !tasks[i].active
  {
    FirstPass(tasks, cur);
  }

  /** `t` is ready, has priority >= 0, and no ready task outranks it. */
  ghost predicate Top(tasks: seq<Task>, t: nat) {
    t < |tasks| && Contends(tasks[t]) && forall c :: 0 <= c < |tasks| && Ready(tasks[c]) ==> tasks[c].priority <= tasks[t].priority
  }

  /** Electing someone else brings the turn strictly closer to a top task. */
  lemma TurnApproaches(tasks: seq<Task>, cur: nat, t: nat)
    requires |tasks| == MAX_TASKS && cur < MAX_TASKS && Top(tasks, t)
    ensures var e := Elect(tasks, cur);
      0 <= e && (e != t ==> Distance(e, t) < Distance(cur, t))
  {
    FirstPass(tasks, cur);
    var e := Scan(tasks, cur, MAX_TASKS);
    assert Beats(tasks, cur, e, t);
    AtDistance(cur, e);
    AtDistance(cur, t);
  }

  /** At 100 Hz a sleep of 42949673 ms, almost twelve hours, lasts one tick. */
  lemma SleepWraps()
    ensures TicksToWait(42949673, FREQUENCY) == 1 && 42949673 * FREQUENCY / 1000 == 4294967
  {
  }

  /** The sleep request is honoured in full exactly when ms * freq fits 32 bits. */
  lemma SleepLength(ms: u32, freq: u32)
    requires freq > 0
    ensures TicksToWait(ms, freq) == (if ms * freq / 1000 == 0 then 1 else ms * freq / 1000) <==> ms * freq < 0x1_0000_0000
  {
    var p := ms * freq;
    if p >= 0x1_0000_0000 {
      assert Wrap(p) <= p - 0x1_0000_0000;
      assert Wrap(p) / 1000 < p / 1000 - 1;
    }
  }
}
