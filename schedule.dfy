/** What one `send_mail` run does, job by job and batch by batch, as a sequence
    of events at the SMTP and thread boundary: the specification that the
    imperative `MailSendService.SendMail` is proved to follow. */
module Schedule {
  import opened Text

  /** `self.max_thread`: jobs per batch and size of the connection-slot array. */
  const MaxThread: nat := 10

  /** The recycle test `n_send_mails > self.max_thread * 10`. */
  const RecycleAbove: nat := MaxThread * 10

  /** The ordinal of an `smtplib.SMTP` object created by the service. */
  type ConnId = nat

  datatype Option<T> = None | Some(value: T)

  /** `to_addrs` of one send: one receiver, or the whole list in broadcast mode. */
  datatype Target = To(addr: string) | ToAll(addrs: seq<string>)

  /** What the service does at its SMTP and thread boundary. */
  datatype Event =
    | Connect(conn: ConnId, host: string, port: int)        // smtplib.SMTP(host, port)
    | Login(conn: ConnId, user: string, password: string)   // smtp.login(uid, pw)
    | Start(job: nat, conn: ConnId, from: string, to: Target, message: seq<byte>)
                                                            // a send thread is started
    | Recycle                                               // f_reset_smtp = True
    | Join(job: nat)                                        // t_thread.join()
    | Close(conn: ConnId)                                   // smtp.close()

  /** Everything a run depends on: the service's configuration, the normalised
      receivers, the broadcast flag, the message `read_qs` produces for each
      padded mail path (one job per entry, in order), and the id the first
      connection of the run gets. */
  datatype Plan = Plan(host: string, port: int, sender: string, password: string,
                       receivers: seq<string>, toAll: bool, messages: seq<seq<byte>>,
                       firstConn: ConnId)

  // ---------------------------------------------------------------------------
  // Jobs

  /** `j % n`, counted round the `n` receivers one lap at a time. */
  function RoundRobin(j: nat, n: nat): (r: nat)
    requires n > 0
    ensures r < n
    decreases j
  {
    if j < n then j else RoundRobin(j - n, n)
  }

  lemma {:induction false} RoundRobinIsMod(j: nat, n: nat)
    requires n > 0
    ensures RoundRobin(j, n) == j % n
    decreases j
  {
    if j >= n {
      RoundRobinIsMod(j - n, n);
      ModLap(j - n, n);
    }
  }

  /** One more lap leaves the remainder unchanged. */
  lemma {:induction false} ModLap(a: nat, n: nat)
    requires n > 0
    ensures (a + n) % n == a % n
  {
    var q := a / n;
    assert a == n * q + a % n;
    assert n * (q + 1) == n * q + n;
    ModUnique(a + n, n, q + 1, a % n);
  }

  /** Division by `n` has one quotient and one remainder. */
  lemma {:induction false} ModUnique(a: int, n: int, q: int, r: int)
    requires n > 0 && a == n * q + r && 0 <= r < n
    ensures a % n == r
  {
    var q', r' := a / n, a % n;
    assert a == n * q' + r';
    assert n * (q + 1) == n * q + n;
    assert n * (q' + 1) == n * q' + n;
    if q' > q {
      MulMono(n, q + 1, q');
    } else if q' < q {
      MulMono(n, q' + 1, q);
    }
  }

  lemma {:induction false} MulMono(n: int, x: int, y: int)
    requires n > 0 && x <= y
    ensures n * x <= n * y
  {
    assert n * y - n * x == n * (y - x);
  }

  /** The receiver of job `j`: round robin over the list, or the whole list. */
  function TargetOf(p: Plan, j: nat): Target
    requires |p.receivers| > 0
  {
    if p.toAll then ToAll(p.receivers) else To(p.receivers[RoundRobin(j, |p.receivers|)])
  }

  /** The kinds of per-job event. */
  datatype Kind = ConnectKind | LoginKind | StartKind | JoinKind

  /** The event of kind `k` for job `j`: job `j` opens connection
      `firstConn + j`, logs in on it, sends message `j` on it
      from the sender to its target, and is joined. */
  function JobEvent(p: Plan, j: nat, k: Kind): Event
    requires |p.receivers| > 0 && j < |p.messages|
  {
    match k
    case ConnectKind => Connect(p.firstConn + j, p.host, p.port)
    case LoginKind => Login(p.firstConn + j, p.sender, p.password)
    case StartKind =>
      Start(j, p.firstConn + j, p.sender, TargetOf(p, j), p.messages[j])
    case JoinKind => Join(j)
  }

  /** The events of kind `k` of jobs `lo .. hi-1`, in job order. */
  function Each(p: Plan, k: Kind, lo: nat, hi: nat): seq<Event>
    requires |p.receivers| > 0 && lo <= hi <= |p.messages|
    decreases hi
  {
    if lo == hi then [] else Each(p, k, lo, hi - 1) + [JobEvent(p, hi - 1, k)]
  }

  /** Resolving and launching job `j`. */
  function JobLaunch(p: Plan, j: nat): seq<Event>
    requires |p.receivers| > 0 && j < |p.messages|
  {
    [JobEvent(p, j, ConnectKind), JobEvent(p, j, LoginKind), JobEvent(p, j, StartKind)]
  }

  /** Launching jobs `lo .. hi-1` one after the other. */
  function Launches(p: Plan, lo: nat, hi: nat): seq<Event>
    requires |p.receivers| > 0 && lo <= hi <= |p.messages|
    decreases hi
  {
    if lo == hi then [] else Launches(p, lo, hi - 1) + JobLaunch(p, hi - 1)
  }

  // ---------------------------------------------------------------------------
  // Batches and the recycle counter

  /** The first job of the batch of job `j`: the multiple of `MaxThread`
      at or just below `j`. */
  function BatchStart(j: nat): (lo: nat)
    ensures lo <= j < lo + MaxThread && lo % MaxThread == 0
  {
    DivTen(j - j % MaxThread, j / 10, 0);
    j - j % MaxThread
  }

  /** `n_send_mails` when the batch starting at job `lo` begins. Every earlier
      batch is full; the counter is tested, and reset when it exceeds
      `RecycleAbove`, only at the end of a batch. */
  function CountAt(lo: nat): nat
    requires lo % MaxThread == 0
    decreases lo
  {
    if lo == 0 then 0
    else
      var c := CountAt(lo - MaxThread) + MaxThread;
      if c > RecycleAbove then 0 else c
  }

  /** The batch of jobs `lo .. hi-1` ends with a recycle. */
  predicate Recycles(lo: nat, hi: nat)
    requires lo % MaxThread == 0
  {
    CountAt(lo) + (hi - lo) > RecycleAbove
  }

  /** One batch: its jobs launched in order, then its flush. */
  function Batch(p: Plan, lo: nat, hi: nat): seq<Event>
    requires |p.receivers| > 0 && lo % MaxThread == 0 && lo < hi <= |p.messages|
  {
    Launches(p, lo, hi) + Flush(p, lo, hi)
  }

  /** The flush that ends a batch: the recycle decision, then every job of the
      batch joined in order. */
  function Flush(p: Plan, lo: nat, hi: nat): seq<Event>
    requires |p.receivers| > 0 && lo % MaxThread == 0 && lo < hi <= |p.messages|
  {
    (if Recycles(lo, hi) then [Recycle] else []) + Each(p, JoinKind, lo, hi)
  }

  /** The batches that cover jobs `0 .. hi-1`, where `hi` ends a batch. */
  function BatchesUntil(p: Plan, hi: nat): seq<Event>
    requires |p.receivers| > 0 && hi <= |p.messages|
    requires hi == |p.messages| || hi % MaxThread == 0
    decreases hi
  {
    if hi == 0 then []
    else
      var lo := BatchStart(hi - 1);
      BatchesUntil(p, lo) + Batch(p, lo, hi)
  }

  /** The whole run. */
  function Trace(p: Plan): seq<Event>
    requires |p.receivers| > 0
  {
    BatchesUntil(p, |p.messages|)
  }

  /** What the run has done before job `idx` is resolved while the batch that
      starts at `lo` is open: every batch before `lo`, then the launches of
      jobs `lo .. idx-1`. */
  function LoggedBefore(p: Plan, lo: nat, idx: nat): seq<Event>
    requires |p.receivers| > 0 && lo <= idx <= |p.messages|
    requires lo == |p.messages| || lo % MaxThread == 0
  {
    BatchesUntil(p, lo) + Launches(p, lo, idx)
  }

  // ---------------------------------------------------------------------------
  // The recycle counter

  /** At a batch start `lo` the counter equals `lo mod 110`. */
  lemma {:induction false} CountAtClosedForm(lo: nat)
    requires lo % MaxThread == 0
    ensures CountAt(lo) == lo % (RecycleAbove + MaxThread)
    decreases lo
  {
    if lo > 0 {
      CountAtClosedForm(lo - MaxThread);
      CycleStep(lo);
    }
  }

  /** One batch further round the recycle period of 110 jobs. */
  lemma {:induction false} CycleStep(lo: nat)
    requires lo > 0 && lo % MaxThread == 0
    ensures var c := (lo - MaxThread) % (RecycleAbove + MaxThread) + MaxThread;
      lo % (RecycleAbove + MaxThread) == if c > RecycleAbove then 0 else c
  {
    DivTen(lo - 10, lo / 10 - 1, 0);
    var q, s := CycleParts(lo - 10);
    if s < 10 {
      DivCycle(lo, q, 10 * s + 10);
    } else {
      DivCycle(lo, q + 1, 0);
    }
  }

  /** A batch start is a whole number of batches past a multiple of the
      recycle period. */
  lemma {:induction false} CycleParts(lo: nat) returns (q: nat, s: nat)
    requires lo % MaxThread == 0
    ensures lo == 110 * q + 10 * s && s < 11
    ensures lo % (RecycleAbove + MaxThread) == 10 * s
  {
    var t := lo / 10;
    assert lo == 10 * t;
    q := t / 11;
    s := t % 11;
    assert t == 11 * q + s;
    DivCycle(lo, q, 10 * s);
  }

  /** Division by `MaxThread` has one quotient and one remainder. */
  lemma {:induction false} DivTen(a: int, q: int, r: int)
    requires a == 10 * q + r && 0 <= r < 10
    ensures a / MaxThread == q && a % MaxThread == r
  {
  }

  /** Division by the recycle period has one quotient and one remainder. */
  lemma {:induction false} DivCycle(a: int, q: int, r: int)
    requires a == 110 * q + r && 0 <= r < 110
    ensures a / (RecycleAbove + MaxThread) == q && a % (RecycleAbove + MaxThread) == r
  {
  }

  /** A job inside the batch that starts at `lo` belongs to that batch. */
  lemma {:induction false} BatchStartWithin(lo: nat, j: nat)
    requires lo % MaxThread == 0 && lo <= j < lo + MaxThread
    ensures BatchStart(j) == lo
  {
    DivTen(j, lo / 10, j - lo);
  }

  /** A batch that starts at `lo` ends on a multiple of `MaxThread` exactly
      when it is full. */
  lemma {:induction false} BatchEndAligned(lo: nat, hi: nat)
    requires lo % MaxThread == 0 && lo < hi <= lo + MaxThread
    ensures hi % MaxThread == 0 <==> hi == lo + MaxThread
  {
    if hi < lo + MaxThread {
      DivTen(hi, lo / 10, hi - lo);
    } else {
      DivTen(hi, lo / 10 + 1, 0);
    }
  }

  /** A batch ends with a recycle exactly when it starts at job 100, 210, 320,
      and so on: after 110 jobs from the start or from the previous recycle,
      whether the batch is full or the last one. The counter never goes above
      110, and a batch starts with it at most 100. */
  lemma {:induction false} RecyclesIff(lo: nat, hi: nat)
    requires lo % MaxThread == 0 && lo < hi <= lo + MaxThread
    ensures Recycles(lo, hi) <==> lo % (RecycleAbove + MaxThread) == RecycleAbove
    ensures CountAt(lo) <= RecycleAbove
    ensures CountAt(lo) + (hi - lo) <= RecycleAbove + MaxThread
  {
    CountAtClosedForm(lo);
    CycleBounds(lo, hi);
  }

  lemma {:induction false} CycleBounds(lo: nat, hi: nat)
    requires lo % MaxThread == 0 && lo < hi <= lo + MaxThread
    ensures var c := lo % (RecycleAbove + MaxThread);
      c <= RecycleAbove && (c + (hi - lo) > RecycleAbove <==> c == RecycleAbove)
  {
    var q, s := CycleParts(lo);
  }

  // ---------------------------------------------------------------------------
  // Projections of a trace

  predicate OfKind(e: Event, k: Kind)
  {
    match k
    case ConnectKind => e.Connect?
    case LoginKind => e.Login?
    case StartKind => e.Start?
    case JoinKind => e.Join?
  }

  /** The events of kind `k` in `s`, in order. */
  function Select(s: seq<Event>, k: Kind): seq<Event>
  {
    if |s| == 0 then [] else (if OfKind(s[0], k) then [s[0]] else []) + Select(s[1..], k)
  }

  lemma {:induction false} SelectConcat(a: seq<Event>, b: seq<Event>, k: Kind)
    ensures Select(a + b, k) == Select(a, k) + Select(b, k)
    decreases |a|
  {
    if |a| > 0 {
      assert (a + b)[0] == a[0];
      assert (a + b)[1..] == a[1..] + b;
      SelectConcat(a[1..], b, k);
    } else {
      assert a + b == b;
    }
  }

  lemma {:induction false} SelectPrefix(s: seq<Event>, r: nat, k: Kind)
    requires r <= |s|
    ensures |Select(s[..r], k)| <= |Select(s, k)|
  {
    assert s == s[..r] + s[r..];
    SelectConcat(s[..r], s[r..], k);
  }

  lemma {:induction false} EachConcat(p: Plan, k: Kind, lo: nat, mid: nat, hi: nat)
    requires |p.receivers| > 0 && lo <= mid <= hi <= |p.messages|
    ensures Each(p, k, lo, mid) + Each(p, k, mid, hi) == Each(p, k, lo, hi)
    decreases hi
  {
    if mid < hi {
      EachConcat(p, k, lo, mid, hi - 1);
    }
  }

  lemma {:induction false} EachAt(p: Plan, k: Kind, lo: nat, hi: nat, j: nat)
    requires |p.receivers| > 0 && lo <= j < hi <= |p.messages|
    ensures |Each(p, k, lo, hi)| == hi - lo && Each(p, k, lo, hi)[j - lo] == JobEvent(p, j, k)
    decreases hi
  {
    if j < hi - 1 {
      EachAt(p, k, lo, hi - 1, j);
    } else {
      EachLength(p, k, lo, hi - 1);
    }
  }

  lemma {:induction false} EachLength(p: Plan, k: Kind, lo: nat, hi: nat)
    requires |p.receivers| > 0 && lo <= hi <= |p.messages|
    ensures |Each(p, k, lo, hi)| == hi - lo
    decreases hi
  {
    if lo < hi {
      EachLength(p, k, lo, hi - 1);
    }
  }

  lemma {:induction false} SelectJobEvent(p: Plan, j: nat, k: Kind, k': Kind)
    requires |p.receivers| > 0 && j < |p.messages|
    ensures Select([JobEvent(p, j, k)], k') == if k == k' then [JobEvent(p, j, k)] else []
  {
    assert [JobEvent(p, j, k)][1..] == [];
  }

  lemma {:induction false} SelectJobLaunch(p: Plan, j: nat, k: Kind)
    requires |p.receivers| > 0 && j < |p.messages|
    ensures Select(JobLaunch(p, j), k) == if k == JoinKind then [] else [JobEvent(p, j, k)]
  {
    OfKindJobEvent(p, j, ConnectKind, k);
    OfKindJobEvent(p, j, LoginKind, k);
    OfKindJobEvent(p, j, StartKind, k);
    SelectTriple(JobEvent(p, j, ConnectKind), JobEvent(p, j, LoginKind), JobEvent(p, j, StartKind), k);
  }

  lemma {:induction false} OfKindJobEvent(p: Plan, j: nat, k: Kind, k': Kind)
    requires |p.receivers| > 0 && j < |p.messages|
    ensures OfKind(JobEvent(p, j, k), k') <==> k == k'
  {
  }

  lemma {:induction false} SelectTriple(a: Event, b: Event, c: Event, k: Kind)
    ensures Select([a, b, c], k) ==
      (if OfKind(a, k) then [a] else []) + (if OfKind(b, k) then [b] else []) +
      (if OfKind(c, k) then [c] else [])
  {
    var x, y, z := if OfKind(a, k) then [a] else [], if OfKind(b, k) then [b] else [],
      if OfKind(c, k) then [c] else [];
    assert [c][1..] == [];
    assert Select([c], k) == z;
    assert [b, c][1..] == [c];
    assert Select([b, c], k) == y + z;
    assert [a, b, c][1..] == [b, c];
    assert Select([a, b, c], k) == x + (y + z);
  }

  lemma {:induction false} SelectLaunches(p: Plan, lo: nat, hi: nat, k: Kind)
    requires |p.receivers| > 0 && lo <= hi <= |p.messages|
    ensures Select(Launches(p, lo, hi), k) == if k == JoinKind then [] else Each(p, k, lo, hi)
  {
    if k == JoinKind {
      SelectLaunchesJoin(p, lo, hi, k);
    } else {
      SelectLaunchesOther(p, lo, hi, k);
    }
  }

  lemma {:induction false} SelectLaunchesJoin(p: Plan, lo: nat, hi: nat, k: Kind)
    requires |p.receivers| > 0 && lo <= hi <= |p.messages| && k == JoinKind
    ensures Select(Launches(p, lo, hi), k) == []
    decreases hi
  {
    if lo < hi {
      SelectLaunchesJoin(p, lo, hi - 1, k);
      SelectJobLaunch(p, hi - 1, k);
      SelectAppend(Launches(p, lo, hi - 1), JobLaunch(p, hi - 1), k, [], []);
    }
  }

  lemma {:induction false} SelectLaunchesOther(p: Plan, lo: nat, hi: nat, k: Kind)
    requires |p.receivers| > 0 && lo <= hi <= |p.messages| && k != JoinKind
    ensures Select(Launches(p, lo, hi), k) == Each(p, k, lo, hi)
    decreases hi
  {
    if lo < hi {
      SelectLaunchesOther(p, lo, hi - 1, k);
      SelectJobLaunch(p, hi - 1, k);
      SelectAppend(Launches(p, lo, hi - 1), JobLaunch(p, hi - 1), k, Each(p, k, lo, hi - 1), [JobEvent(p, hi - 1, k)]);
    }
  }

  lemma {:induction false} SelectAppend(a: seq<Event>, b: seq<Event>, k: Kind, x: seq<Event>, y: seq<Event>)
    requires Select(a, k) == x && Select(b, k) == y
    ensures Select(a + b, k) == x + y
  {
    SelectConcat(a, b, k);
  }

  lemma {:induction false} SelectEach(p: Plan, k: Kind, lo: nat, hi: nat, k': Kind)
    requires |p.receivers| > 0 && lo <= hi <= |p.messages|
    ensures Select(Each(p, k, lo, hi), k') == if k == k' then Each(p, k, lo, hi) else []
  {
    if k == k' {
      SelectEachSame(p, k, lo, hi);
    } else {
      SelectEachOther(p, k, lo, hi, k');
    }
  }

  lemma {:induction false} SelectEachSame(p: Plan, k: Kind, lo: nat, hi: nat)
    requires |p.receivers| > 0 && lo <= hi <= |p.messages|
    ensures Select(Each(p, k, lo, hi), k) == Each(p, k, lo, hi)
    decreases hi
  {
    if lo < hi {
      SelectEachSame(p, k, lo, hi - 1);
      SelectJobEvent(p, hi - 1, k, k);
      SelectAppend(Each(p, k, lo, hi - 1), [JobEvent(p, hi - 1, k)], k, Each(p, k, lo, hi - 1), [JobEvent(p, hi - 1, k)]);
    }
  }

  lemma {:induction false} SelectEachOther(p: Plan, k: Kind, lo: nat, hi: nat, k': Kind)
    requires |p.receivers| > 0 && lo <= hi <= |p.messages| && k != k'
    ensures Select(Each(p, k, lo, hi), k') == []
    decreases hi
  {
    if lo < hi {
      SelectEachOther(p, k, lo, hi - 1, k');
      SelectJobEvent(p, hi - 1, k, k');
      SelectAppend(Each(p, k, lo, hi - 1), [JobEvent(p, hi - 1, k)], k', [], []);
    }
  }

  /** A batch holds, per kind, exactly the events of its jobs. */
  lemma {:induction false} SelectBatch(p: Plan, lo: nat, hi: nat, k: Kind)
    requires |p.receivers| > 0 && lo % MaxThread == 0 && lo < hi <= |p.messages|
    ensures Select(Batch(p, lo, hi), k) == Each(p, k, lo, hi)
  {
    SelectConcat(Launches(p, lo, hi), Flush(p, lo, hi), k);
    SelectLaunches(p, lo, hi, k);
    SelectFlush(p, lo, hi, k);
  }

  /** A flush holds joins only: those of every job of the batch. */
  lemma {:induction false} SelectFlush(p: Plan, lo: nat, hi: nat, k: Kind)
    requires |p.receivers| > 0 && lo % MaxThread == 0 && lo < hi <= |p.messages|
    ensures Select(Flush(p, lo, hi), k) == if k == JoinKind then Each(p, JoinKind, lo, hi) else []
  {
    var recycle: seq<Event> := if Recycles(lo, hi) then [Recycle] else [];
    SelectConcat(recycle, Each(p, JoinKind, lo, hi), k);
    SelectEach(p, JoinKind, lo, hi, k);
    SelectRecycle(Recycles(lo, hi), k);
  }

  lemma {:induction false} SelectRecycle(recycle: bool, k: Kind)
    ensures Select(if recycle then [Recycle] else [], k) == []
  {
    if recycle {
      assert [Recycle][1..] == [];
    }
  }

  /** The batches up to `hi` hold, per kind, the events of jobs `0 .. hi-1`. */
  lemma {:induction false} SelectBatchesUntil(p: Plan, hi: nat, k: Kind)
    requires |p.receivers| > 0 && hi <= |p.messages|
    requires hi == |p.messages| || hi % MaxThread == 0
    ensures Select(BatchesUntil(p, hi), k) == Each(p, k, 0, hi)
    decreases hi
  {
    if hi > 0 {
      var lo := BatchStart(hi - 1);
      SelectBatchesUntil(p, lo, k);
      SelectConcat(BatchesUntil(p, lo), Batch(p, lo, hi), k);
      SelectBatch(p, lo, hi, k);
      EachConcat(p, k, 0, lo, hi);
    }
  }

  // ---------------------------------------------------------------------------
  // Properties of a run

  /** Projection of a whole run onto one kind: the events of that kind are
      those of jobs `0 .. |messages|-1`, in job order. */
  lemma {:induction false} TraceKind(p: Plan, k: Kind)
    requires |p.receivers| > 0
    ensures var s := Select(Trace(p), k);
      |s| == |p.messages| && forall j :: 0 <= j < |p.messages| ==> s[j] == JobEvent(p, j, k)
  {
    SelectBatchesUntil(p, |p.messages|, k);
    EachAll(p, k, |p.messages|);
  }

  /** The events of kind `k` of jobs `0 .. hi-1` are those of each job in
      turn. */
  lemma {:induction false} EachAll(p: Plan, k: Kind, hi: nat)
    requires |p.receivers| > 0 && hi <= |p.messages|
    ensures |Each(p, k, 0, hi)| == hi && forall j :: 0 <= j < hi ==> Each(p, k, 0, hi)[j] == JobEvent(p, j, k)
  {
    EachLength(p, k, 0, hi);
    forall j | 0 <= j < hi
      ensures Each(p, k, 0, hi)[j] == JobEvent(p, j, k)
    {
      EachAt(p, k, 0, hi, j);
    }
  }

  /** Per-job resolution: the run opens one new connection per padded mail
      path, logs in on it, starts exactly one send per path in index order, on
      that connection, from the sender, to receiver `j mod |receivers|` (the
      whole list in broadcast mode), with the message read from the file, and
      joins every job in order. */
  lemma {:induction false} TraceJobs(p: Plan)
    requires |p.receivers| > 0
    ensures var t := Trace(p);
      var n := |p.messages|;
      |Select(t, ConnectKind)| == n && |Select(t, LoginKind)| == n &&
      |Select(t, StartKind)| == n && |Select(t, JoinKind)| == n &&
      forall j :: 0 <= j < n ==>
        && Select(t, ConnectKind)[j] == Connect(p.firstConn + j, p.host, p.port)
        && Select(t, LoginKind)[j] == Login(p.firstConn + j, p.sender, p.password)
        && Select(t, StartKind)[j] == Start(j, p.firstConn + j, p.sender,
             if p.toAll then ToAll(p.receivers) else To(p.receivers[j % |p.receivers|]),
             p.messages[j])
        && Select(t, JoinKind)[j] == Join(j)
  {
    TraceConnects(p);
    TraceLogins(p);
    TraceStarts(p);
    TraceKind(p, JoinKind);
  }

  lemma {:induction false} TraceConnects(p: Plan)
    requires |p.receivers| > 0
    ensures var s := Select(Trace(p), ConnectKind);
      |s| == |p.messages| &&
      forall j :: 0 <= j < |p.messages| ==> s[j] == Connect(p.firstConn + j, p.host, p.port)
  {
    TraceKind(p, ConnectKind);
  }

  lemma {:induction false} TraceLogins(p: Plan)
    requires |p.receivers| > 0
    ensures var s := Select(Trace(p), LoginKind);
      |s| == |p.messages| &&
      forall j :: 0 <= j < |p.messages| ==> s[j] == Login(p.firstConn + j, p.sender, p.password)
  {
    TraceKind(p, LoginKind);
  }

  lemma {:induction false} TraceStarts(p: Plan)
    requires |p.receivers| > 0
    ensures var s := Select(Trace(p), StartKind);
      |s| == |p.messages| &&
      forall j :: 0 <= j < |p.messages| ==>
        s[j] == Start(j, p.firstConn + j, p.sender,
          if p.toAll then ToAll(p.receivers) else To(p.receivers[j % |p.receivers|]),
          p.messages[j])
  {
    forall j | 0 <= j < |p.messages| {
      RoundRobinIsMod(j, |p.receivers|);
    }
    TraceKind(p, StartKind);
  }

  lemma {:induction false} NoCloseInEach(p: Plan, k: Kind, lo: nat, hi: nat)
    requires |p.receivers| > 0 && lo <= hi <= |p.messages|
    ensures forall e :: e in Each(p, k, lo, hi) ==> !e.Close?
    decreases hi
  {
    if lo < hi {
      NoCloseInEach(p, k, lo, hi - 1);
    }
  }

  lemma {:induction false} NoCloseInLaunches(p: Plan, lo: nat, hi: nat)
    requires |p.receivers| > 0 && lo <= hi <= |p.messages|
    ensures forall e :: e in Launches(p, lo, hi) ==> !e.Close?
    decreases hi
  {
    if lo < hi {
      NoCloseInLaunches(p, lo, hi - 1);
    }
  }

  /** No connection is ever closed. */
  lemma {:induction false} NoCloseInBatches(p: Plan, hi: nat)
    requires |p.receivers| > 0 && hi <= |p.messages|
    requires hi == |p.messages| || hi % MaxThread == 0
    ensures forall e :: e in BatchesUntil(p, hi) ==> !e.Close?
    decreases hi
  {
    if hi > 0 {
      var lo := BatchStart(hi - 1);
      NoCloseInBatches(p, lo);
      NoCloseInLaunches(p, lo, hi);
      NoCloseInEach(p, JoinKind, lo, hi);
    }
  }

  /** In `s`, no more sends are joined than started, and at most `n` started
      sends are not yet joined. */
  predicate WithinInFlight(s: seq<Event>, n: nat)
  {
    |Select(s, JoinKind)| <= |Select(s, StartKind)| <= |Select(s, JoinKind)| + n
  }

  /** Every prefix of `s` is within the bound `n`. */
  predicate PrefixesWithin(s: seq<Event>, n: nat)
  {
    forall r | 0 <= r <= |s| :: WithinInFlight(s[..r], n)
  }

  /** At every point of a batch, the jobs started but not yet joined are at
      most the batch's own jobs. */
  lemma {:induction false} BatchInFlight(p: Plan, lo: nat, hi: nat)
    requires |p.receivers| > 0 && lo % MaxThread == 0 && lo < hi <= |p.messages|
    ensures PrefixesWithin(Batch(p, lo, hi), hi - lo)
  {
    SelectLaunches(p, lo, hi, StartKind);
    SelectLaunches(p, lo, hi, JoinKind);
    SelectFlush(p, lo, hi, StartKind);
    SelectFlush(p, lo, hi, JoinKind);
    EachLength(p, StartKind, lo, hi);
    EachLength(p, JoinKind, lo, hi);
    PrefixInFlight(Launches(p, lo, hi), Flush(p, lo, hi), hi - lo);
  }

  /** Every prefix of `n` starts followed by `n` joins has at least as many
      starts as joins and at most `n` more. */
  lemma {:induction false} PrefixInFlight(a: seq<Event>, b: seq<Event>, n: nat)
    requires |Select(a, StartKind)| == n && Select(a, JoinKind) == []
    requires Select(b, StartKind) == [] && |Select(b, JoinKind)| == n
    ensures PrefixesWithin(a + b, n)
  {
    forall r | 0 <= r <= |a + b|
      ensures WithinInFlight((a + b)[..r], n)
    {
      if r <= |a| {
        assert (a + b)[..r] == a[..r];
        SelectPrefix(a, r, StartKind);
        SelectPrefix(a, r, JoinKind);
      } else {
        var r' := r - |a|;
        assert (a + b)[..r] == a + b[..r'];
        SelectConcat(a, b[..r'], StartKind);
        SelectConcat(a, b[..r'], JoinKind);
        SelectPrefix(b, r', StartKind);
        SelectPrefix(b, r', JoinKind);
      }
    }
  }

  /** At every point of the batches up to `hi`, the started sends are at least
      the joined ones and at most `MaxThread` more. */
  lemma {:induction false} InFlightUntil(p: Plan, hi: nat)
    requires |p.receivers| > 0 && hi <= |p.messages|
    requires hi == |p.messages| || hi % MaxThread == 0
    ensures PrefixesWithin(BatchesUntil(p, hi), MaxThread)
    decreases hi
  {
    if hi > 0 {
      var lo := BatchesStep(p, hi);
      InFlightUntil(p, lo);
      BalancedUntil(p, lo);
      BatchInFlight(p, lo, hi);
      ConcatWithin(BatchesUntil(p, lo), Batch(p, lo, hi), hi - lo, MaxThread);
    }
  }

  /** The batches up to a batch end `hi` are those up to the start `lo` of
      its batch, then that batch. */
  lemma {:induction false} BatchesStep(p: Plan, hi: nat) returns (lo: nat)
    requires |p.receivers| > 0 && 0 < hi <= |p.messages|
    requires hi == |p.messages| || hi % MaxThread == 0
    ensures lo == BatchStart(hi - 1) && lo % MaxThread == 0 && lo < hi <= lo + MaxThread
    ensures BatchesUntil(p, hi) == BatchesUntil(p, lo) + Batch(p, lo, hi)
  {
    lo := BatchStart(hi - 1);
  }

  /** The batches up to `lo` start and join the same number of sends. */
  lemma {:induction false} BalancedUntil(p: Plan, lo: nat)
    requires |p.receivers| > 0 && lo <= |p.messages|
    requires lo == |p.messages| || lo % MaxThread == 0
    ensures |Select(BatchesUntil(p, lo), StartKind)| == |Select(BatchesUntil(p, lo), JoinKind)|
  {
    SelectBatchesUntil(p, lo, StartKind);
    SelectBatchesUntil(p, lo, JoinKind);
    EachLength(p, StartKind, 0, lo);
    EachLength(p, JoinKind, 0, lo);
  }

  /** A balanced `x` followed by `y` keeps the bound `m` of `x` at every
      point when `y` keeps a bound `n <= m`. */
  lemma {:induction false} ConcatWithin(x: seq<Event>, y: seq<Event>, n: nat, m: nat)
    requires n <= m && |Select(x, StartKind)| == |Select(x, JoinKind)|
    requires PrefixesWithin(x, m) && PrefixesWithin(y, n)
    ensures PrefixesWithin(x + y, m)
  {
    forall r | 0 <= r <= |x + y|
      ensures WithinInFlight((x + y)[..r], m)
    {
      if r <= |x| {
        assert (x + y)[..r] == x[..r];
      } else {
        var y' := y[..r - |x|];
        assert (x + y)[..r] == x + y';
        assert WithinInFlight(y', n);
        SelectConcat(x, y', StartKind);
        SelectConcat(x, y', JoinKind);
      }
    }
  }

  /** Concurrency bound: at every point of a run at most `MaxThread` sends
      have been started and not yet joined, and no job is joined before it is
      started. */
  lemma {:induction false} InFlight(p: Plan, r: nat)
    requires |p.receivers| > 0 && r <= |Trace(p)|
    ensures WithinInFlight(Trace(p)[..r], MaxThread)
  {
    InFlightUntil(p, |p.messages|);
  }

  lemma {:induction false} LaunchesPrefix(p: Plan, lo: nat, mid: nat, hi: nat)
    requires |p.receivers| > 0 && lo <= mid <= hi <= |p.messages|
    ensures Launches(p, lo, mid) <= Launches(p, lo, hi)
    decreases hi
  {
    if mid < hi {
      LaunchesPrefix(p, lo, mid, hi - 1);
    }
  }

  lemma {:induction false} PrefixExtend<T>(a: seq<T>, b: seq<T>, c: seq<T>)
    requires a <= b
    ensures a <= b + c
  {
    assert (b + c)[..|a|] == b[..|a|];
  }

  /** The batch after the one ending at `hi` ends at `hi + MaxThread`, or at
      the last job. */
  function NextEnd(p: Plan, hi: nat): nat
  {
    if hi + MaxThread <= |p.messages| then hi + MaxThread else |p.messages|
  }

  /** The batches up to a batch end `hi` followed by the next batch are a
      prefix of the batches up to any later batch end. */
  lemma {:induction false} BatchesGrow(p: Plan, hi: nat, hi': nat)
    requires |p.receivers| > 0 && hi < hi' <= |p.messages|
    requires hi % MaxThread == 0
    requires hi' == |p.messages| || hi' % MaxThread == 0
    ensures BatchesUntil(p, hi) + Batch(p, hi, NextEnd(p, hi)) <= BatchesUntil(p, hi')
    decreases hi'
  {
    var lo' := LastBatch(p, hi, hi');
    if lo' > hi {
      BatchesGrow(p, hi, lo');
      PrefixExtend(BatchesUntil(p, hi) + Batch(p, hi, NextEnd(p, hi)), BatchesUntil(p, lo'), Batch(p, lo', hi'));
    }
  }

  /** The batches up to `hi'` end with the batch that starts at `lo'`, which
      is `hi` itself when `hi'` is the end of the batch after `hi`. */
  lemma {:induction false} LastBatch(p: Plan, hi: nat, hi': nat) returns (lo': nat)
    requires |p.receivers| > 0 && hi < hi' <= |p.messages|
    requires hi % MaxThread == 0
    requires hi' == |p.messages| || hi' % MaxThread == 0
    ensures hi <= lo' < hi' && lo' % MaxThread == 0
    ensures BatchesUntil(p, hi') == BatchesUntil(p, lo') + Batch(p, lo', hi')
    ensures lo' == hi ==> hi' == NextEnd(p, hi)
  {
    lo' := BatchStart(hi' - 1);
    BatchEndArith(hi, hi', |p.messages|);
  }

  lemma {:induction false} BatchEndArith(hi: nat, hi': nat, n: nat)
    requires hi < hi' <= n && hi % MaxThread == 0
    requires hi' == n || hi' % MaxThread == 0
    ensures var lo' := BatchStart(hi' - 1);
      hi <= lo' < hi' && lo' % MaxThread == 0 &&
      (lo' == hi ==> hi' == if hi + MaxThread <= n then hi + MaxThread else n)
  {
    var lo' := BatchStart(hi' - 1);
    var a, b := hi / 10, lo' / 10;
    assert hi == 10 * a && lo' == 10 * b;
    if hi' % MaxThread == 0 {
      var c := hi' / 10;
      assert hi' == 10 * c;
    }
  }

  /** Barrier: when job `hi` (the first of a batch) is resolved, every earlier
      job has been started and joined, in order, and nothing else has been
      launched. */
  lemma {:induction false} Barrier(p: Plan, hi: nat)
    requires |p.receivers| > 0 && hi < |p.messages| && hi % MaxThread == 0
    ensures var done := BatchesUntil(p, hi);
      done + JobLaunch(p, hi) <= Trace(p) &&
      Select(done, StartKind) == Each(p, StartKind, 0, hi) &&
      Select(done, JoinKind) == Each(p, JoinKind, 0, hi)
  {
    var done := BatchesUntil(p, hi);
    BatchesGrow(p, hi, |p.messages|);
    BatchBeginsWithLaunch(p, hi, NextEnd(p, hi));
    PrefixJoin(done, JobLaunch(p, hi), Batch(p, hi, NextEnd(p, hi)), Trace(p));
    SelectBatchesUntil(p, hi, StartKind);
    SelectBatchesUntil(p, hi, JoinKind);
  }

  /** A batch begins with the launch of its first job. */
  lemma {:induction false} BatchBeginsWithLaunch(p: Plan, lo: nat, hi: nat)
    requires |p.receivers| > 0 && lo % MaxThread == 0 && lo < hi <= |p.messages|
    ensures JobLaunch(p, lo) <= Batch(p, lo, hi)
  {
    LaunchesPrefix(p, lo, lo + 1, hi);
    assert Launches(p, lo, lo + 1) == JobLaunch(p, lo);
    PrefixExtend(JobLaunch(p, lo), Launches(p, lo, hi), Flush(p, lo, hi));
  }

  lemma {:induction false} PrefixJoin<T>(a: seq<T>, b: seq<T>, b': seq<T>, c: seq<T>)
    requires b <= b' && a + b' <= c
    ensures a + b <= c
  {
    assert (a + b')[..|a| + |b|] == a + b;
    assert c[..|a| + |b|] == (a + b')[..|a| + |b|];
  }

  // The local state of the `send_mail` loop in mail_send_service.dfy
  // (`t_threads`, `n_send_mails`, the log so far), kept here beside the trace.

  /** The state of the loop of `send_mail` before job `idx` of `run`, which
      started on log `o` with connection `first`: the jobs before `lo` form
      closed batches, the jobs `lo .. idx-1` are launched and their threads
      pending with the counter at `count`. */
  ghost predicate Progress(run: Plan, o: seq<Event>, first: ConnId, lo: nat, idx: nat,
                           threads: seq<nat>, count: nat, log: seq<Event>, created: nat)
  {
    && lo <= idx <= |run.messages| && (lo == |run.messages| || lo % MaxThread == 0)
    && (idx < |run.messages| ==> idx < lo + MaxThread)
    && (idx == |run.messages| ==> lo == |run.messages|)
    && threads == Jobs(lo, idx)
    && (idx < |run.messages| ==> lo % MaxThread == 0 && count == CountAt(lo) + (idx - lo))
    && created == first + idx
    && (|run.receivers| > 0 ==> log == o + LoggedBefore(run, lo, idx))
  }

  /** The state of the loop of `send_mail` right after job `hi - 1` of
      `run` is launched, before the test for the end of the batch: the jobs
      `lo .. hi-1` of the open batch are launched and their threads pending. */
  ghost predicate Open(run: Plan, o: seq<Event>, first: ConnId, lo: nat, hi: nat,
                       threads: seq<nat>, count: nat, log: seq<Event>, created: nat)
  {
    && |run.receivers| > 0 && lo % MaxThread == 0 && lo < hi <= |run.messages| && hi <= lo + MaxThread
    && threads == Jobs(lo, hi) && |threads| == hi - lo && count == CountAt(lo) + (hi - lo)
    && created == first + hi
    && log == o + LoggedBefore(run, lo, hi)
  }

  /** The threads of jobs `lo .. hi-1`. */
  function Jobs(lo: nat, hi: nat): seq<nat>
    requires lo <= hi
  {
    seq(hi - lo, i => lo + i)
  }
}
