/**
 * A user's task records and the pure logic the bot applies to a user's
 * list: the stable sort by scheduled instant, removal by position, and the
 * "time left" status shown next to each task.
 */
module Tasks {
  import opened Wrappers
  import opened Calendar
  import opened DateText

  /** A chat user's id; the stored mapping is keyed by it. */
  type UserId = int

  /**
   * One stored task: its name, the `%d.%m.%Y` and `%H:%M` texts it was
   * created from, its scheduled instant (the `datetime` field), the moment
   * it was created, and whether the periodic check has already reminded the
   * user of it (a missing `reminded` key reads as false).
   */
  datatype Task = Task(name: string, date: string, time: string, at: Instant, createdAt: Instant, reminded: bool)

  /** A one-shot reminder job: named `<user>_<index>`, run at instant `at`. */
  datatype Job = Job(user: UserId, index: nat, at: Instant)

  /** The date and time texts of a task parse, and its instant is theirs. */
  predicate WellFormed(t: Task)
  {
    && ParseDate(t.date).Some?
    && ParseTime(t.time).Some?
    && t.at == InstantOf(ParseDate(t.date).value, ParseTime(t.time).value)
  }

  predicate SortedByInstant(s: seq<Task>)
  {
    forall i, j :: 0 <= i < j < |s| ==> s[i].at <= s[j].at
  }

  /** Places `x` in front of the first task of `s` not scheduled before it. */
  function Insert(x: Task, s: seq<Task>): seq<Task>
  {
    if s == [] || x.at <= s[0].at then [x] + s else [s[0]] + Insert(x, s[1..])
  }

  lemma ConsSorted(t: Task, s: seq<Task>)
    requires SortedByInstant(s)
    requires s == [] || t.at <= s[0].at
    ensures SortedByInstant([t] + s)
  {
    forall i, j | 0 <= i < j < |s| + 1 ensures ([t] + s)[i].at <= ([t] + s)[j].at {
      if i > 0 {
        assert ([t] + s)[i] == s[i - 1] && ([t] + s)[j] == s[j - 1];
      } else {
        assert ([t] + s)[j] == s[j - 1];
      }
    }
  }

  /** Inserting into a sorted list keeps it sorted; the new head is `x` or the old head. */
  lemma {:induction false} InsertSorted(x: Task, s: seq<Task>)
    requires SortedByInstant(s)
    ensures SortedByInstant(Insert(x, s))
    ensures Insert(x, s) != [] && (Insert(x, s)[0] == x || (s != [] && Insert(x, s)[0] == s[0]))
  {
    if s == [] || x.at <= s[0].at {
      ConsSorted(x, s);
    } else {
      InsertSorted(x, s[1..]);
      ConsSorted(s[0], Insert(x, s[1..]));
    }
  }

  /** Inserting adds exactly `x`. */
  lemma {:induction false} InsertAddsOne(x: Task, s: seq<Task>)
    ensures multiset(Insert(x, s)) == multiset(s) + multiset{x}
    ensures |Insert(x, s)| == |s| + 1
  {
    if s != [] && x.at > s[0].at {
      var rest := Insert(x, s[1..]);
      InsertAddsOne(x, s[1..]);
      assert Insert(x, s) == [s[0]] + rest;
      assert multiset([s[0]] + rest) == multiset{s[0]} + multiset(rest);
      assert s == [s[0]] + s[1..];
      assert multiset(s) == multiset{s[0]} + multiset(s[1..]);
    }
  }

  /**
   * `user_tasks.sort(key=lambda x: x['datetime'])`: Python's sort is
   * stable, and so is this insertion sort (see SortIsStable and
   * StableSortIsUnique).
   */
  function SortByInstant(s: seq<Task>): (r: seq<Task>)
    ensures SortedByInstant(r)
    ensures multiset(r) == multiset(s)
    ensures |r| == |s|
  {
    if s == [] then []
    else
      var rest := SortByInstant(s[1..]);
      InsertSorted(s[0], rest);
      InsertAddsOne(s[0], rest);
      assert s == [s[0]] + s[1..];
      Insert(s[0], rest)
  }

  /** The tasks of `s` scheduled exactly at `k`, in the order `s` has them. */
  function WithInstant(s: seq<Task>, k: Instant): seq<Task>
  {
    if s == [] then [] else (if s[0].at == k then [s[0]] else []) + WithInstant(s[1..], k)
  }

  lemma WithInstantCons(t: Task, s: seq<Task>, k: Instant)
    ensures WithInstant([t] + s, k) == (if t.at == k then [t] else []) + WithInstant(s, k)
  {
    assert ([t] + s)[1..] == s;
  }

  lemma {:induction false} InsertKeepsTiedOrder(x: Task, s: seq<Task>, k: Instant)
    ensures WithInstant(Insert(x, s), k) == (if x.at == k then [x] else []) + WithInstant(s, k)
  {
    if s == [] || x.at <= s[0].at {
      WithInstantCons(x, s, k);
    } else {
      var tie := if x.at == k then [x] else [];
      var head := if s[0].at == k then [s[0]] else [];
      var rest := Insert(x, s[1..]);
      assert Insert(x, s) == [s[0]] + rest;
      WithInstantCons(s[0], rest, k);
      InsertKeepsTiedOrder(x, s[1..], k);
      WithInstantHead(s, k);
      SwapDisjoint(head, tie, WithInstant(s[1..], k));
    }
  }

  lemma WithInstantHead(s: seq<Task>, k: Instant)
    requires s != []
    ensures WithInstant(s, k) == (if s[0].at == k then [s[0]] else []) + WithInstant(s[1..], k)
  {
  }

  lemma SwapDisjoint(a: seq<Task>, b: seq<Task>, c: seq<Task>)
    requires a == [] || b == []
    ensures a + (b + c) == b + (a + c)
  {
    if a == [] {
      assert a + (b + c) == b + c == b + (a + c);
    } else {
      assert a + (b + c) == a + c == b + (a + c);
    }
  }

  /** Sorting keeps the relative order of tasks scheduled at the same instant. */
  lemma {:induction false} SortIsStable(s: seq<Task>, k: Instant)
    ensures WithInstant(SortByInstant(s), k) == WithInstant(s, k)
  {
    if s != [] {
      SortIsStable(s[1..], k);
      InsertKeepsTiedOrder(s[0], SortByInstant(s[1..]), k);
    }
  }

  lemma {:induction false} TiedTaskNotBeforeHead(s: seq<Task>, k: Instant)
    requires SortedByInstant(s) && WithInstant(s, k) != []
    ensures s != [] && s[0].at <= k
  {
    if s != [] && s[0].at != k {
      TiedTaskNotBeforeHead(s[1..], k);
    }
  }

  /**
   * Two lists sorted by instant that agree on the order of the tasks at
   * every instant are the same list: a stable sort has only one possible
   * result, so SortByInstant gives exactly what `list.sort` gives.
   */
  lemma {:induction false} StableSortIsUnique(a: seq<Task>, b: seq<Task>)
    requires SortedByInstant(a) && SortedByInstant(b)
    requires forall k :: WithInstant(a, k) == WithInstant(b, k)
    ensures a == b
  {
    if a == [] || b == [] {
      // the first task of the non-empty list has no tie in the empty one
      if a != [] {
        WithInstantHead(a, a[0].at);
        assert false;
      } else if b != [] {
        WithInstantHead(b, b[0].at);
        assert false;
      }
    } else {
      var m, n := a[0].at, b[0].at;
      assert WithInstant(a, m) == [a[0]] + WithInstant(a[1..], m);
      assert WithInstant(b, n) == [b[0]] + WithInstant(b[1..], n);
      TiedTaskNotBeforeHead(b, m);
      TiedTaskNotBeforeHead(a, n);
      assert m == n;
      assert a[0] == WithInstant(a, m)[0] == WithInstant(b, m)[0] == b[0];
      forall k ensures WithInstant(a[1..], k) == WithInstant(b[1..], k) {
        var head := if a[0].at == k then [a[0]] else [];
        assert WithInstant(a, k) == head + WithInstant(a[1..], k);
        assert WithInstant(b, k) == head + WithInstant(b[1..], k);
        assert (head + WithInstant(a[1..], k))[|head|..] == WithInstant(a[1..], k);
        assert (head + WithInstant(b[1..], k))[|head|..] == WithInstant(b[1..], k);
      }
      StableSortIsUnique(a[1..], b[1..]);
      assert a == [a[0]] + a[1..] && b == [b[0]] + b[1..];
    }
  }

  /** Any stable sort of `s` by instant equals SortByInstant(s). */
  lemma StableSortsAgree(s: seq<Task>, r: seq<Task>)
    requires SortedByInstant(r)
    requires forall k :: WithInstant(r, k) == WithInstant(s, k)
    ensures r == SortByInstant(s)
  {
    forall k ensures WithInstant(r, k) == WithInstant(SortByInstant(s), k) {
      SortIsStable(s, k);
    }
    StableSortIsUnique(r, SortByInstant(s));
  }

  /** `s.pop(i)`: everything but element `i`, in the same order. */
  function RemoveAt(s: seq<Task>, i: nat): (r: seq<Task>)
    requires i < |s|
    ensures |r| == |s| - 1
    ensures forall j :: 0 <= j < i ==> r[j] == s[j]
    ensures forall j :: i <= j < |r| ==> r[j] == s[j + 1]
    ensures multiset(r) + multiset{s[i]} == multiset(s)
    ensures SortedByInstant(s) ==> SortedByInstant(r)
  {
    assert s == s[..i] + [s[i]] + s[i + 1..];
    s[..i] + s[i + 1..]
  }

  /** The status shown beside a task in the list. */
  datatype Status = Overdue | DaysLeft(days: int) | HoursLeft(hours: int) | Soon

  /** `.days` of a `timedelta` of `delta` microseconds (floor division). */
  function DeltaDays(delta: int): int
  {
    delta / MicrosPerDay
  }

  /** `.seconds` of a `timedelta` of `delta` microseconds: always in 0..86399. */
  function DeltaSeconds(delta: int): int
  {
    delta % MicrosPerDay / MicrosPerSecond
  }

  /**
   * The status as `list_tasks_command` writes it: the overdue test reads
   * the clock once (`firstNow`) and the time left reads it again
   * (`secondNow`).
   */
  function StatusTwoReads(at: Instant, firstNow: Instant, secondNow: Instant): (s: Status)
    ensures s == Overdue <==> at < firstNow
    ensures s.DaysLeft? <==> at >= firstNow && at - secondNow >= MicrosPerDay
    ensures s.DaysLeft? ==> s.days == (at - secondNow) / MicrosPerDay >= 1
    ensures s.HoursLeft? <==>
      at >= firstNow && at - secondNow < MicrosPerDay && (at - secondNow) % MicrosPerDay >= MicrosPerHour
    ensures s.HoursLeft? ==> s.hours == (at - secondNow) % MicrosPerDay / MicrosPerHour && 1 <= s.hours <= 23
    ensures s == Soon <==>
      at >= firstNow && at - secondNow < MicrosPerDay && (at - secondNow) % MicrosPerDay < MicrosPerHour
  {
    HoursOfDelta(at - secondNow);
    if at < firstNow then Overdue
    else
      var left := at - secondNow;
      var days := DeltaDays(left);
      var hours := DeltaSeconds(left) / SecondsPerHour;
      if days > 0 then DaysLeft(days)
      else if hours > 0 then HoursLeft(hours)
      else Soon
  }

  /** `.seconds // 3600` of a `timedelta` is the whole hours of its within-day remainder. */
  lemma HoursOfDelta(delta: int)
    ensures DeltaDays(delta) > 0 <==> delta >= MicrosPerDay
    ensures DeltaSeconds(delta) / SecondsPerHour == delta % MicrosPerDay / MicrosPerHour
    ensures 0 <= delta % MicrosPerDay / MicrosPerHour <= 23
  {
    var r := delta % MicrosPerDay;
    assert 0 <= r < MicrosPerDay;
    var q := r / MicrosPerHour;
    assert r == q * MicrosPerHour + r % MicrosPerHour;
    assert r / MicrosPerSecond == q * SecondsPerHour + r % MicrosPerHour / MicrosPerSecond;
  }

  /**
   * The status with a single clock reading: overdue strictly before `now`;
   * otherwise the whole days left when at least one, else the whole hours
   * left when at least one, else "soon".
   */
  function StatusOf(at: Instant, now: Instant): (s: Status)
    ensures s == Overdue <==> at < now
    ensures s.DaysLeft? <==> at - now >= MicrosPerDay
    ensures s.DaysLeft? ==> s.days == (at - now) / MicrosPerDay >= 1
    ensures s.HoursLeft? <==> MicrosPerHour <= at - now < MicrosPerDay
    ensures s.HoursLeft? ==> s.hours == (at - now) / MicrosPerHour && 1 <= s.hours <= 23
    ensures s == Soon <==> 0 <= at - now < MicrosPerHour
  {
    StatusTwoReads(at, now, now)
  }

  /**
   * If the clock moves on past the task between the two readings, the
   * listing shows "23 hours" for a task that is neither 23 hours away by
   * the first reading ("soon") nor by the second (overdue).
   */
  lemma ClockAdvanceShowsTwentyThreeHours(at: Instant, firstNow: Instant, secondNow: Instant)
    requires firstNow <= at < secondNow && secondNow - firstNow <= MicrosPerHour
    ensures StatusTwoReads(at, firstNow, secondNow) == HoursLeft(23)
    ensures StatusOf(at, firstNow) == Soon
    ensures StatusOf(at, secondNow) == Overdue
  {
    var left := at - secondNow;
    assert -MicrosPerHour <= left < 0;
    assert left / MicrosPerDay == -1;
    assert left % MicrosPerDay == left + MicrosPerDay;
  }

  /** A concrete case: a task due now, with the second reading one microsecond later. */
  lemma ClockAdvanceExample()
    ensures StatusTwoReads(MicrosPerDay, MicrosPerDay, MicrosPerDay + 1) == HoursLeft(23)
    ensures StatusOf(MicrosPerDay, MicrosPerDay) == Soon
  {
    ClockAdvanceShowsTwentyThreeHours(MicrosPerDay, MicrosPerDay, MicrosPerDay + 1);
  }
}
