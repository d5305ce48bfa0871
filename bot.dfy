/**
 * The bot's handlers that read and change the stored tasks, over an
 * in-memory copy of the mapping from user ids to task lists that is
 * loaded and saved whole.
 */
module Bot {
  import opened Wrappers
  import opened Calendar
  import opened DateText
  import opened Validation
  import opened Tasks
  import opened Reminders

  /** One line of the task listing: its number (from 1), the task and its status. */
  datatype Entry = Entry(position: nat, task: Task, status: Status)

  /** Outcome of a delete request. */
  datatype DeleteReply = NoTasks | BadNumber(count: nat) | Deleted(task: Task)

  /** The tasks stored for `user`; none when the user has no entry. */
  function TasksOf(m: Store, user: UserId): seq<Task>
  {
    if user in m then m[user] else []
  }

  predicate AllWellFormed(s: seq<Task>)
  {
    forall i :: 0 <= i < |s| ==> WellFormed(s[i])
  }

  /** Every stored task's date and time texts parse and give its instant. */
  predicate StoreWellFormed(m: Store)
  {
    forall u :: u in m ==> AllWellFormed(m[u])
  }

  /** A list holding only tasks of a well-formed list is well-formed. */
  lemma WellFormedSublist(r: seq<Task>, s: seq<Task>)
    requires AllWellFormed(s) && multiset(r) <= multiset(s)
    ensures AllWellFormed(r)
  {
    forall i | 0 <= i < |r| ensures WellFormed(r[i]) {
      assert r[i] in multiset(r);
      assert r[i] in s;
    }
  }

  /** Deleting from the sorted copy of a user's list keeps the store well-formed. */
  lemma DeleteKeepsWellFormed(m: Store, u: UserId, i: nat)
    requires u in m && i < |m[u]|
    ensures StoreWellFormed(m) ==> StoreWellFormed(m[u := RemoveAt(SortByInstant(m[u]), i)])
  {
    if StoreWellFormed(m) {
      var sorted := SortByInstant(m[u]);
      SortKeepsWellFormed(m[u]);
      RemoveKeepsWellFormed(sorted, i);
      UpdateKeepsWellFormed(m, u, RemoveAt(sorted, i));
    }
  }

  lemma SortKeepsWellFormed(s: seq<Task>)
    requires AllWellFormed(s)
    ensures AllWellFormed(SortByInstant(s))
  {
    WellFormedSublist(SortByInstant(s), s);
  }

  lemma RemoveKeepsWellFormed(s: seq<Task>, i: nat)
    requires AllWellFormed(s) && i < |s|
    ensures AllWellFormed(RemoveAt(s, i))
  {
    WellFormedSublist(RemoveAt(s, i), s);
  }

  /** Replacing one user's list by a well-formed list keeps the store well-formed. */
  lemma UpdateKeepsWellFormed(m: Store, u: UserId, s: seq<Task>)
    requires StoreWellFormed(m) && AllWellFormed(s)
    ensures StoreWellFormed(m[u := s])
  {
  }

  /**
   * Every stored task of a well-formed store starts on a whole minute, so
   * the periodic check finds it due exactly during the minute from its
   * instant on, until it is reminded.
   */
  lemma StoredTasksDueInTheirMinute(m: Store, now: Instant)
    requires StoreWellFormed(m)
    ensures forall u, i :: u in m && 0 <= i < |m[u]| ==>
      m[u][i].at % MicrosPerMinute == 0
      && (Due(m[u][i], now) <==> !m[u][i].reminded && m[u][i].at <= now < m[u][i].at + MicrosPerMinute)
  {
    forall u, i | u in m && 0 <= i < |m[u]|
      ensures m[u][i].at % MicrosPerMinute == 0
      ensures Due(m[u][i], now) <==> !m[u][i].reminded && m[u][i].at <= now < m[u][i].at + MicrosPerMinute
    {
      assert WellFormed(m[u][i]);
      DueOnlyInItsMinute(m[u][i], now);
    }
  }

  /** A key set that is not empty has a member to pick. */
  lemma SomeUser(users: set<UserId>)
    requires users != {}
    ensures exists u :: u in users
  {
    if forall u :: u !in users {
      assert false;
    }
  }

  /**
   * The inner loop of the periodic check over one user's list: the list
   * after the check, and the indices whose send succeeded and failed.
   */
  method CheckUser(user: UserId, ts: seq<Task>, now: Instant, delivers: Delivery)
    returns (checked: seq<Task>, sent: set<nat>, unsent: set<nat>)
    ensures checked == CheckedList(user, ts, now, delivers)
    ensures forall i: nat :: i in sent <==> i < |ts| && Due(ts[i], now) && delivers(user, i)
    ensures forall i: nat :: i in unsent <==> i < |ts| && Due(ts[i], now) && !delivers(user, i)
  {
    checked := ts;
    sent, unsent := {}, {};
    var i := 0;
    while i < |ts|
      invariant 0 <= i <= |ts| == |checked|
      invariant forall k :: 0 <= k < i ==> checked[k] == Checked(ts[k], now, delivers(user, k))
      invariant forall k :: i <= k < |ts| ==> checked[k] == ts[k]
      invariant forall k: nat :: k in sent <==> k < i && Due(ts[k], now) && delivers(user, k)
      invariant forall k: nat :: k in unsent <==> k < i && Due(ts[k], now) && !delivers(user, k)
    {
      if SameMinute(checked[i].at, now) && !checked[i].reminded {
        if delivers(user, i) {
          checked := checked[i := checked[i].(reminded := true)];
          sent := sent + {i};
        } else {
          unsent := unsent + {i};
        }
      }
      i := i + 1;
    }
  }

  /** Adding one user's delivered indices to those of the users already scanned. */
  lemma DeliveredStep(start: Store, pending: set<UserId>, u: UserId, now: Instant, delivers: Delivery,
                      delivered: set<(UserId, nat)>, sent: set<nat>)
    requires u in pending && u in start
    requires forall p :: p in delivered <==> p in Delivered(start, now, delivers) && p.0 !in pending
    requires forall i: nat :: i in sent <==> i < |start[u]| && Due(start[u][i], now) && delivers(u, i)
    ensures forall p :: p in delivered + (set i | i in sent :: (u, i)) <==>
      p in Delivered(start, now, delivers) && p.0 !in pending - {u}
  {
  }

  /** Adding one user's failed indices to those of the users already scanned. */
  lemma FailedStep(start: Store, pending: set<UserId>, u: UserId, now: Instant, delivers: Delivery,
                   failed: set<(UserId, nat)>, unsent: set<nat>)
    requires u in pending && u in start
    requires forall p :: p in failed <==>
      p in Attempted(start, now) && !delivers(p.0, p.1) && p.0 !in pending
    requires forall i: nat :: i in unsent <==> i < |start[u]| && Due(start[u][i], now) && !delivers(u, i)
    ensures forall p :: p in failed + (set i | i in unsent :: (u, i)) <==>
      p in Attempted(start, now) && !delivers(p.0, p.1) && p.0 !in pending - {u}
  {
  }

  /** The check only sets `reminded`, so it keeps the store well-formed. */
  lemma CheckKeepsWellFormed(m: Store, now: Instant, delivers: Delivery)
    ensures StoreWellFormed(m) ==> StoreWellFormed(CheckedStore(m, now, delivers))
  {
  }

  class TaskStore {
    /** The stored mapping (`tasks.json`). */
    var tasks: Store

    ghost predicate Valid()
      reads this
    {
      StoreWellFormed(tasks)
    }

    /** `load_tasks()`: whatever was stored, or the empty mapping. */
    constructor (loaded: Store)
      ensures tasks == loaded
      ensures StoreWellFormed(loaded) ==> Valid()
    {
      tasks := loaded;
    }

    /**
     * `task_time_received`: validates the typed time against the stored
     * date and `now`; on success appends one task to the user's list,
     * creating the list if needed, and arms a job named after the new
     * task's index.
     */
    method AddTask(user: UserId, name: string, storedDate: string, timeText: string, now: Instant)
      returns (reply: TimeReply, job: Option<Job>)
      modifies this
      ensures reply == TimeStep(storedDate, timeText, now)
      ensures !reply.TimeAccepted? ==> tasks == old(tasks) && job == None
      ensures reply.TimeAccepted? ==>
        var t := Task(name, storedDate, reply.stored, reply.at, now, false);
        && tasks == old(tasks)[user := TasksOf(old(tasks), user) + [t]]
        && |tasks[user]| == |TasksOf(old(tasks), user)| + 1
        && job == Some(Job(user, |tasks[user]| - 1, reply.at))
        && tasks[user][job.value.index] == t
      ensures old(Valid()) ==> Valid()
    {
      reply := TimeStep(storedDate, timeText, now);
      if !reply.TimeAccepted? {
        job := None;
        return;
      }
      if user !in tasks {
        tasks := tasks[user := []];
      }
      var t := Task(name, storedDate, reply.stored, reply.at, now, false);
      assert WellFormed(t);
      tasks := tasks[user := tasks[user] + [t]];
      job := Some(Job(user, |tasks[user]| - 1, reply.at));
    }

    /**
     * `list_tasks_command`: the user's tasks in instant order, numbered
     * from 1, each with its status at `now`.  The sorted copy is not saved.
     */
    method ListTasks(user: UserId, now: Instant) returns (entries: seq<Entry>)
      ensures var sorted := SortByInstant(TasksOf(tasks, user));
        |entries| == |sorted|
        && forall i :: 0 <= i < |entries| ==>
          entries[i] == Entry(i + 1, sorted[i], StatusOf(sorted[i].at, now))
      ensures entries == [] <==> TasksOf(tasks, user) == []
      ensures forall i, j :: 0 <= i < j < |entries| ==> entries[i].task.at <= entries[j].task.at
    {
      var sorted := SortByInstant(TasksOf(tasks, user));
      entries := [];
      var i := 0;
      while i < |sorted|
        invariant 0 <= i <= |sorted|
        invariant |entries| == i
        invariant forall k :: 0 <= k < i ==>
          entries[k] == Entry(k + 1, sorted[k], StatusOf(sorted[k].at, now))
      {
        entries := entries + [Entry(i + 1, sorted[i], StatusOf(sorted[i].at, now))];
        i := i + 1;
      }
    }

    /**
     * `handle_delete_number`: sorts the user's list by instant and removes
     * the task at 1-based position `number`; a user without tasks or a
     * number outside 1..count changes nothing.
     */
    method DeleteTask(user: UserId, number: int) returns (reply: DeleteReply)
      modifies this
      ensures TasksOf(old(tasks), user) == [] ==> reply == NoTasks && tasks == old(tasks)
      ensures var n := |TasksOf(old(tasks), user)|;
        n > 0 && (number < 1 || number > n) ==> reply == BadNumber(n) && tasks == old(tasks)
      ensures var sorted := SortByInstant(TasksOf(old(tasks), user));
        1 <= number <= |sorted| ==>
          reply == Deleted(sorted[number - 1])
          && tasks == old(tasks)[user := RemoveAt(sorted, number - 1)]
      ensures old(Valid()) ==> Valid()
    {
      if user !in tasks || tasks[user] == [] {
        return NoTasks;
      }
      var sorted := SortByInstant(tasks[user]);
      if number < 1 || number > |sorted| {
        return BadNumber(|sorted|);
      }
      reply := Deleted(sorted[number - 1]);
      DeleteKeepsWellFormed(tasks, user, number - 1);
      tasks := tasks[user := RemoveAt(sorted, number - 1)];
    }

    /**
     * `check_tasks_periodically`: goes through every user's list and sends
     * a reminder for each task due at `now`; a successful send marks the
     * task reminded, a failed one leaves it as it was and the scan goes on.
     */
    method CheckTasks(now: Instant, delivers: Delivery)
      returns (delivered: set<(UserId, nat)>, failed: set<(UserId, nat)>)
      modifies this
      ensures tasks == CheckedStore(old(tasks), now, delivers)
      ensures delivered == Delivered(old(tasks), now, delivers)
      ensures failed == Attempted(old(tasks), now) - Delivered(old(tasks), now, delivers)
      ensures old(Valid()) ==> Valid()
      ensures old(Valid()) ==> forall p :: p in delivered + failed ==>
        p.0 in old(tasks) && p.1 < |old(tasks)[p.0]|
        && old(tasks)[p.0][p.1].at <= now < old(tasks)[p.0][p.1].at + MicrosPerMinute
    {
      ghost var start := tasks;
      var pending := tasks.Keys;
      delivered, failed := {}, {};
      while pending != {}
        invariant pending <= start.Keys && tasks.Keys == start.Keys
        invariant forall v :: v in start && v !in pending ==>
          tasks[v] == CheckedList(v, start[v], now, delivers)
        invariant forall v :: v in pending ==> tasks[v] == start[v]
        invariant forall p :: p in delivered <==> p in Delivered(start, now, delivers) && p.0 !in pending
        invariant forall p :: p in failed <==>
          p in Attempted(start, now) && !delivers(p.0, p.1) && p.0 !in pending
        decreases pending
      {
        SomeUser(pending);
        var u :| u in pending;
        var list, sent, unsent := CheckUser(u, tasks[u], now, delivers);
        DeliveredStep(start, pending, u, now, delivers, delivered, sent);
        FailedStep(start, pending, u, now, delivers, failed, unsent);
        tasks := tasks[u := list];
        delivered := delivered + set i | i in sent :: (u, i);
        failed := failed + set i | i in unsent :: (u, i);
        pending := pending - {u};
      }
      assert pending == {};
      assert delivered == Delivered(start, now, delivers);
      assert failed == Attempted(start, now) - Delivered(start, now, delivers);
      CheckKeepsWellFormed(start, now, delivers);
      if StoreWellFormed(start) {
        StoredTasksDueInTheirMinute(start, now);
      }
    }

    /**
     * The start-up loop of `main`: arms a one-shot job for every stored
     * task whose instant is strictly after `now`, named by user and index.
     */
    method RearmOnStartup(now: Instant) returns (jobs: set<Job>)
      ensures jobs == ArmedAtStartup(tasks, now)
    {
      var pending := tasks.Keys;
      jobs := {};
      while pending != {}
        invariant pending <= tasks.Keys
        invariant forall j :: j in jobs <==> j in ArmedAtStartup(tasks, now) && j.user !in pending
        decreases pending
      {
        SomeUser(pending);
        var u :| u in pending;
        var list := tasks[u];
        var i := 0;
        while i < |list|
          invariant 0 <= i <= |list|
          invariant forall j :: j in jobs <==>
            j in ArmedAtStartup(tasks, now) && (j.user !in pending || (j.user == u && j.index < i))
        {
          if list[i].at > now {
            jobs := jobs + {Job(u, i, list[i].at)};
          }
          i := i + 1;
        }
        pending := pending - {u};
      }
      assert pending == {};
    }
  }
}
