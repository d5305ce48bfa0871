/**
 * What the periodic check and the start-up re-arming do to the stored
 * mapping from users to task lists, as functions of that mapping, the
 * current instant and the outcomes of the sends.
 */
module Reminders {
  import opened Calendar
  import opened Tasks

  /** The whole stored mapping, as `load_tasks` returns it and `save_tasks` writes it. */
  type Store = map<UserId, seq<Task>>

  /** Whether sending the reminder for task `index` of `user` succeeds. */
  type Delivery = (UserId, nat) -> bool

  /** The periodic check sends a reminder for a task: its minute is now's, and it was not reminded yet. */
  predicate Due(t: Task, now: Instant)
  {
    SameMinute(t.at, now) && !t.reminded
  }

  /** A task after the check has looked at it: `reminded` is set only by a successful send. */
  function Checked(t: Task, now: Instant, sent: bool): (r: Task)
    ensures r.reminded <==> t.reminded || (Due(t, now) && sent)
    ensures r == t.(reminded := r.reminded)
  {
    if Due(t, now) && sent then t.(reminded := true) else t
  }

  /** A user's list after the check, task by task. */
  function CheckedList(user: UserId, ts: seq<Task>, now: Instant, delivers: Delivery): (r: seq<Task>)
    ensures |r| == |ts|
    ensures forall i :: 0 <= i < |ts| ==> r[i] == Checked(ts[i], now, delivers(user, i))
  {
    seq(|ts|, i requires 0 <= i < |ts| => Checked(ts[i], now, delivers(user, i)))
  }

  /** The stored mapping after one run of the periodic check. */
  function CheckedStore(m: Store, now: Instant, delivers: Delivery): (r: Store)
    ensures r.Keys == m.Keys
    ensures forall u :: u in m ==> |r[u]| == |m[u]|
    ensures forall u, i :: u in m && 0 <= i < |m[u]| ==>
      r[u][i] == m[u][i].(reminded := r[u][i].reminded)
      && (r[u][i].reminded <==> m[u][i].reminded || (Due(m[u][i], now) && delivers(u, i)))
  {
    map u | u in m :: CheckedList(u, m[u], now, delivers)
  }

  /** The (user, index) pairs the check tries to send a reminder for. */
  function Attempted(m: Store, now: Instant): set<(UserId, nat)>
  {
    set u, i | u in m && 0 <= i < |m[u]| && Due(m[u][i], now) :: (u, i)
  }

  /** The (user, index) pairs whose reminder the check delivers. */
  function Delivered(m: Store, now: Instant, delivers: Delivery): (r: set<(UserId, nat)>)
    ensures r <= Attempted(m, now)
  {
    set p | p in Attempted(m, now) && delivers(p.0, p.1)
  }

  /** A task is due only during the one minute that starts at its instant. */
  lemma DueOnlyInItsMinute(t: Task, now: Instant)
    requires t.at % MicrosPerMinute == 0
    ensures Due(t, now) <==> !t.reminded && t.at <= now < t.at + MicrosPerMinute
  {
    var q := t.at / MicrosPerMinute;
    assert t.at == q * MicrosPerMinute;
    if t.at <= now < t.at + MicrosPerMinute {
      assert now / MicrosPerMinute == q;
    }
  }

  /** Instants in one minute agree on which tasks are due. */
  lemma SameMinuteSameDue(now: Instant, later: Instant)
    requires SameMinute(now, later)
    ensures forall t: Task :: Due(t, later) == Due(t, now)
  {
  }

  /**
   * A second check later in the same minute, whatever its send outcomes,
   * attempts exactly the reminders the first one attempted and failed to
   * deliver.
   */
  lemma SecondCheckRetriesOnlyFailures(m: Store, now: Instant, later: Instant, first: Delivery)
    requires SameMinute(now, later)
    ensures Attempted(CheckedStore(m, now, first), later)
      == Attempted(m, now) - Delivered(m, now, first)
  {
    SameMinuteSameDue(now, later);
    var m' := CheckedStore(m, now, first);
    forall p | p in Attempted(m', later) ensures p in Attempted(m, now) - Delivered(m, now, first) {
      var (u, i) := p;
      assert Due(m'[u][i], now);
    }
    forall p | p in Attempted(m, now) - Delivered(m, now, first) ensures p in Attempted(m', later) {
      var (u, i) := p;
      assert Due(m'[u][i], now);
    }
  }

  /** No reminder delivered by one check is delivered again by a later check in the same minute. */
  lemma NoDoubleDelivery(m: Store, now: Instant, later: Instant, first: Delivery, second: Delivery)
    requires SameMinute(now, later)
    ensures Delivered(m, now, first) !! Delivered(CheckedStore(m, now, first), later, second)
  {
    var m' := CheckedStore(m, now, first);
    forall p | p in Delivered(m, now, first) ensures p !in Delivered(m', later, second) {
      var (u, i) := p;
      assert m'[u][i].reminded;
    }
  }

  /**
   * When every send of a check succeeds, checking again at any instant of
   * the same minute sends nothing and changes nothing.
   */
  lemma CheckIsIdempotent(m: Store, now: Instant, later: Instant, first: Delivery, second: Delivery)
    requires SameMinute(now, later)
    requires Delivered(m, now, first) == Attempted(m, now)
    ensures Attempted(CheckedStore(m, now, first), later) == {}
    ensures CheckedStore(CheckedStore(m, now, first), later, second) == CheckedStore(m, now, first)
  {
    SecondCheckRetriesOnlyFailures(m, now, later, first);
    var m' := CheckedStore(m, now, first);
    var m'' := CheckedStore(m', later, second);
    forall u | u in m' ensures m''[u] == m'[u] {
      forall i | 0 <= i < |m'[u]| ensures m''[u][i] == m'[u][i] {
        assert (u, i) !in Attempted(m', later);
      }
    }
  }

  /** A failed send leaves the task as it was, so it stays due for the rest of its minute. */
  lemma FailedSendStaysDue(m: Store, now: Instant, delivers: Delivery, u: UserId, i: nat)
    requires u in m && i < |m[u]| && Due(m[u][i], now) && !delivers(u, i)
    ensures CheckedStore(m, now, delivers)[u][i] == m[u][i]
    ensures (u, i) in Attempted(CheckedStore(m, now, delivers), now)
  {
  }

  /** The one-shot jobs start-up arms: every stored task strictly after `now`. */
  function ArmedAtStartup(m: Store, now: Instant): (jobs: set<Job>)
    ensures forall j :: j in jobs <==>
      j.user in m && j.index < |m[j.user]| && j.at == m[j.user][j.index].at && now < j.at
  {
    set u, i | u in m && 0 <= i < |m[u]| && now < m[u][i].at :: Job(u, i, m[u][i].at)
  }

  /** Start-up re-arming ignores the `reminded` flag: the periodic check does not affect it. */
  lemma ArmingIgnoresReminded(m: Store, now: Instant, checkedAt: Instant, delivers: Delivery)
    ensures ArmedAtStartup(CheckedStore(m, checkedAt, delivers), now) == ArmedAtStartup(m, now)
  {
  }
}
