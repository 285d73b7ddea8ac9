/** The mail sender object: its configuration, the SMTP and thread calls it
    makes (each recorded in a ghost log of `Schedule.Event`s), and `send_mail`,
    the batched send loop. */
module Service {
  import opened Text
  import opened ArchiveReader
  import opened Pairing
  import opened Schedule

  /** How `send_mail` ends: normally, or with the `ZeroDivisionError` that
      `idx % len(receiver_addrs)` raises for an empty receiver list. */
  datatype Outcome = Done | ZeroDivision

  /** The message `read_qs` gives for each of `paths`, in order. */
  function Messages(store: Store, paths: seq<string>): (m: seq<seq<byte>>)
    ensures |m| == |paths|
  {
    seq(|paths|, j requires 0 <= j < |paths| => Framed(store.Read(paths[j])))
  }

  /** The run `send_mail` performs on normalised receivers and mail paths. */
  function RunOf(host: string, port: int, sender: string, password: string,
                 receivers: seq<string>, mails: seq<string>, toAll: bool,
                 store: Store, first: ConnId): Plan
  {
    Plan(host, port, sender, password, receivers, toAll,
         Messages(store, MailPathsAdd(List(receivers), List(mails)).items), first)
  }

  class MailSendService {
    const serverHost: string
    const port: int
    const senderUid: string
    const senderPw: string
    const maxThread: nat := MaxThread
    const basePath: string

    /** How many `smtplib.SMTP` objects this service has created; the next one
        gets this number as its id. */
    var created: nat

    /** Every SMTP and thread call made so far, in order. */
    ghost var log: seq<Event>

    /** `__init__`: the data directory depends on whether the platform's name
        contains "window", compared in lower case. */
    constructor (serverHost: string, port: int, senderUid: string, senderPw: string, platformSystem: string)
      ensures this.serverHost == serverHost && this.port == port
      ensures this.senderUid == senderUid && this.senderPw == senderPw
      ensures basePath == if Contains(Lower(platformSystem), "window")
                          then "D:\\data\\terracehamadm"
                          else "/opt/mail-migration-data/terracehamadm"
      ensures created == 0 && log == []
    {
      this.serverHost := serverHost;
      this.port := port;
      this.senderUid := senderUid;
      this.senderPw := senderPw;
      if Contains(Lower(platformSystem), "window") {
        basePath := "D:\\data\\terracehamadm";
      } else {
        basePath := "/opt/mail-migration-data/terracehamadm";
      }
      created := 0;
      log := [];
    }

    /** `smtplib.SMTP(host, port)`: a new connection with a fresh id. */
    method OpenSmtp(host: string, port: int) returns (c: ConnId)
      modifies this
      ensures c == old(created) && created == old(created) + 1
      ensures log == old(log) + [Connect(c, host, port)]
    {
      c := created;
      created := created + 1;
      log := log + [Connect(c, host, port)];
    }

    /** `smtp.login(user, password)`. */
    method SmtpLogin(c: ConnId, user: string, password: string)
      modifies this
      ensures created == old(created)
      ensures log == old(log) + [Event.Login(c, user, password)]
    {
      log := log + [Event.Login(c, user, password)];
    }

    /** `__start_stat`: a daemon thread that runs `__send_mail_smtp`, which
        sends from `sender_uid` whatever `fromAddr` says. The thread is
        identified by the job it sends. */
    method StartStat(job: nat, c: ConnId, fromAddr: string, toAddrs: Target, message: seq<byte>)
      returns (thread: nat)
      modifies this
      ensures thread == job && created == old(created)
      ensures log == old(log) + [Start(job, c, senderUid, toAddrs, message)]
    {
      thread := job;
      log := log + [Start(job, c, senderUid, toAddrs, message)];
    }

    /** `t_thread.join()`. */
    method JoinThread(thread: nat)
      modifies this
      ensures created == old(created)
      ensures log == old(log) + [Event.Join(thread)]
    {
      log := log + [Event.Join(thread)];
    }

    /** `send_mail`: a single path or receiver stands for a one-element list;
        an empty mail list ends the call at once; otherwise the mail list is
        padded and sent in batches. */
    method SendMail(receiverAddrs: StrOrList, mailPaths: StrOrList, toAll: bool, store: Store)
      returns (outcome: Outcome)
      modifies this
      ensures var mails := AsList(mailPaths);
        |mails| == 0 ==> outcome == Done && created == old(created) && log == old(log)
      ensures var mails, receivers := AsList(mailPaths), AsList(receiverAddrs);
        |mails| > 0 && |receivers| == 0 ==>
          && outcome == ZeroDivision
          && created == old(created) + 1
          && log == old(log) + [Connect(old(created), serverHost, port),
                                Event.Login(old(created), senderUid, senderPw)]
      ensures var mails, receivers := AsList(mailPaths), AsList(receiverAddrs);
        |mails| > 0 && |receivers| > 0 ==>
          var run := RunOf(serverHost, port, senderUid, senderPw, receivers, mails, toAll, store, old(created));
          && outcome == Done
          && created == old(created) + |run.messages|
          && log == old(log) + Trace(run)
    {
      var mails := AsList(mailPaths);
      if |mails| == 0 {
        return Done;
      }
      var receivers := AsList(receiverAddrs);
      var paths := MailPathsAdd(List(receivers), List(mails)).items;
      assert |paths| >= |mails|;
      outcome := SendBatches(receivers, paths, toAll, store);
    }

    /** The loop of `send_mail` over the padded paths: every path is its own
        job, in batches of `maxThread` jobs that are joined before the next
        batch starts. A slot of `smtps` is read before each job, but nothing
        ever stores a connection in it, so every job opens and logs in on a new
        connection, and the counter-driven reset finds only empty slots. */
    method SendBatches(receivers: seq<string>, paths: seq<string>, toAll: bool, store: Store)
      returns (outcome: Outcome)
      requires |paths| > 0
      modifies this
      ensures |receivers| == 0 ==>
        && outcome == ZeroDivision
        && created == old(created) + 1
        && log == old(log) + [Connect(old(created), serverHost, port),
                              Event.Login(old(created), senderUid, senderPw)]
      ensures |receivers| > 0 ==>
        && outcome == Done
        && created == old(created) + |paths|
        && log == old(log) + Trace(Plan(serverHost, port, senderUid, senderPw, receivers, toAll,
                                        Messages(store, paths), old(created)))
    {
      ghost var run := Plan(serverHost, port, senderUid, senderPw, receivers, toAll,
                            Messages(store, paths), created);
      var smtps := NewSlots();
      var tThreads: seq<nat> := [];
      var nSendMails: nat := 0;
      ghost var lo: nat := 0;
      var idx := 0;
      while idx < |paths|
        invariant smtps.Length == MaxThread && forall i :: 0 <= i < smtps.Length ==> smtps[i] == None
        invariant lo <= idx <= |paths|
        invariant Progress(run, old(log), old(created), lo, idx, tThreads, nSendMails, log, created)
        invariant idx == 0 ==> log == old(log)
        invariant idx > 0 ==> |receivers| > 0
      {
        var launched;
        launched, tThreads, nSendMails, lo := SendJob(run, old(log), old(created), lo, idx, paths, receivers, toAll, store,
                                                     smtps, tThreads, nSendMails);
        if !launched {
          return ZeroDivision;
        }
        idx := idx + 1;
      }
      if |receivers| > 0 {
        ProgressDone(run, old(log), old(created), lo, tThreads, nSendMails, log, created);
      }
      return Done;
    }

    /** `smtps = [None] * max_thread`. */
    method NewSlots() returns (smtps: array<Option<ConnId>>)
      ensures fresh(smtps) && smtps.Length == MaxThread
      ensures forall i :: 0 <= i < smtps.Length ==> smtps[i] == None
    {
      smtps := new Option<ConnId>[maxThread](_ => None);
    }

    /** One pass of the loop body of `send_mail` for job `idx` of `run`:
        launch the job and, when the batch is full or no path remains, flush
        it. `launched` is false for the `ZeroDivisionError` of an empty
        receiver list. */
    method SendJob(ghost run: Plan, ghost o: seq<Event>, ghost first: ConnId, ghost lo: nat, idx: nat,
                   paths: seq<string>, receivers: seq<string>, toAll: bool, store: Store,
                   smtps: array<Option<ConnId>>, tThreads: seq<nat>, nSendMails: nat)
      returns (launched: bool, threads: seq<nat>, count: nat, ghost lo': nat)
      requires run.host == serverHost && run.port == port && run.sender == senderUid && run.password == senderPw
      requires run.receivers == receivers && run.toAll == toAll && run.firstConn == first
      requires |run.messages| == |paths| && idx < |paths| && run.messages[idx] == Framed(store.Read(paths[idx]))
      requires smtps.Length == MaxThread && forall i :: 0 <= i < smtps.Length ==> smtps[i] == None
      requires idx < |paths| && Progress(run, o, first, lo, idx, tThreads, nSendMails, log, created)
      modifies this, smtps
      ensures forall i :: 0 <= i < smtps.Length ==> smtps[i] == None
      ensures created == old(created) + 1
      ensures !launched <==> |receivers| == 0
      ensures !launched ==> log == old(log) + [Connect(old(created), serverHost, port),
                                               Event.Login(old(created), senderUid, senderPw)]
      ensures launched ==> lo' <= idx + 1 && Progress(run, o, first, lo', idx + 1, threads, count, log, created)
    {
      var thread := LaunchInRun(run, o, first, lo, idx, paths, receivers, toAll, store, smtps, tThreads, nSendMails);
      if thread == None {
        return false, tThreads, nSendMails, lo;
      }
      threads, count, lo' := EndOfJob(run, o, first, lo, idx + 1, |paths| - (idx + 1),
                                      tThreads + [thread.value], nSendMails + 1, smtps);
      launched := true;
    }

    /** The end of the loop body once the thread of job `hi - 1` is pending:
        when the batch is full or no path remains, flush it and start the
        next batch at `hi`; otherwise keep it open. */
    method EndOfJob(ghost run: Plan, ghost o: seq<Event>, ghost first: ConnId, ghost lo: nat, hi: nat,
                    remain: nat, tThreads: seq<nat>, nSendMails: nat, smtps: array<Option<ConnId>>)
      returns (threads: seq<nat>, count: nat, ghost lo': nat)
      requires Open(run, o, first, lo, hi, tThreads, nSendMails, log, created)
      requires remain == |run.messages| - hi
      requires smtps.Length == MaxThread && forall i :: 0 <= i < smtps.Length ==> smtps[i] == None
      modifies this, smtps
      ensures created == old(created)
      ensures forall i :: 0 <= i < smtps.Length ==> smtps[i] == None
      ensures lo' <= hi && Progress(run, o, first, lo', hi, threads, count, log, created)
    {
      if |tThreads| >= maxThread || remain == 0 {
        BatchEndAligned(lo, hi);
        count := FinishBatch(run, o, first, lo, hi, tThreads, nSendMails, smtps);
        threads, lo' := [], hi;
      } else {
        OpenContinues(run, o, first, lo, hi, tThreads, nSendMails, log, created);
        threads, count, lo' := tThreads, nSendMails, lo;
      }
    }

    /** `LaunchJob` for job `idx` of `run`, stated against the run. */
    method LaunchInRun(ghost run: Plan, ghost o: seq<Event>, ghost first: ConnId, ghost lo: nat, idx: nat,
                       paths: seq<string>, receivers: seq<string>, toAll: bool, store: Store,
                       smtps: array<Option<ConnId>>, ghost tThreads: seq<nat>, ghost nSendMails: nat)
      returns (thread: Option<nat>)
      requires run.host == serverHost && run.port == port && run.sender == senderUid && run.password == senderPw
      requires run.receivers == receivers && run.toAll == toAll && run.firstConn == first
      requires |run.messages| == |paths| && idx < |paths| && run.messages[idx] == Framed(store.Read(paths[idx]))
      requires smtps.Length == MaxThread && forall i :: 0 <= i < smtps.Length ==> smtps[i] == None
      requires Progress(run, o, first, lo, idx, tThreads, nSendMails, log, created)
      modifies this
      ensures created == old(created) + 1
      ensures thread == None <==> |receivers| == 0
      ensures thread == None ==> log == old(log) + [Connect(old(created), serverHost, port),
                                                    Event.Login(old(created), senderUid, senderPw)]
      ensures thread != None ==>
        thread.value == idx && Open(run, o, first, lo, idx + 1, tThreads + [idx], nSendMails + 1, log, created)
    {
      ghost var before, c := log, created;
      thread := LaunchJob(idx, paths[idx], receivers, toAll, store, smtps);
      if thread != None {
        JobInRun(run, o, first, lo, idx, tThreads, nSendMails, Framed(store.Read(paths[idx])), before, c, log);
      }
    }

    /** One job of the loop: take the connection of slot `idx % maxThread`,
        opening and logging in on a new one when the slot is empty, read the
        message, pick the receiver, and start the sending thread. `None` is the
        `ZeroDivisionError` of an empty receiver list, raised after the
        connection is made and the message read. */
    method LaunchJob(idx: nat, mailPath: string, receivers: seq<string>, toAll: bool,
                     store: Store, smtps: array<Option<ConnId>>)
      returns (thread: Option<nat>)
      requires smtps.Length == maxThread
      requires forall i :: 0 <= i < smtps.Length ==> smtps[i] == None
      modifies this
      ensures created == old(created) + 1
      ensures |receivers| == 0 ==>
        thread == None &&
        log == old(log) + [Connect(old(created), serverHost, port),
                           Event.Login(old(created), senderUid, senderPw)]
      ensures |receivers| > 0 ==>
        thread == Some(idx) &&
        log == old(log) + [Connect(old(created), serverHost, port),
                           Event.Login(old(created), senderUid, senderPw),
                           Start(idx, old(created), senderUid,
                                 if toAll then ToAll(receivers) else To(receivers[RoundRobin(idx, |receivers|)]),
                                 Framed(store.Read(mailPath)))]
    {
      var smtp := smtps[idx % maxThread];
      if smtp == None {
        var c := OpenSmtp(serverHost, port);
        SmtpLogin(c, senderUid, senderPw);
        smtp := Some(c);
      }
      var message := ReadQs(mailPath, store);
      if |receivers| == 0 {
        return None;
      }
      var rrIdx := idx % |receivers|;
      RoundRobinIsMod(idx, |receivers|);
      var receiverAddrAt := To(receivers[rrIdx]);
      if toAll {
        receiverAddrAt := ToAll(receivers);
      }
      var t := StartStat(idx, smtp.value, senderUid, receiverAddrAt, message);
      return Some(t);
    }

    /** The flush that closes the batch `lo .. hi-1` of `run`, stated against
        the run: the log then holds every batch up to `hi`, and the counter is
        the one the next batch starts with. */
    method FinishBatch(ghost run: Plan, ghost o: seq<Event>, ghost first: ConnId, ghost lo: nat, hi: nat,
                       tThreads: seq<nat>, nSendMails: nat, smtps: array<Option<ConnId>>)
      returns (count: nat)
      requires Open(run, o, first, lo, hi, tThreads, nSendMails, log, created)
      requires hi % MaxThread == 0 || hi == |run.messages|
      requires smtps.Length == maxThread && forall i :: 0 <= i < smtps.Length ==> smtps[i] == None
      modifies this, smtps
      ensures created == old(created)
      ensures forall i :: 0 <= i < smtps.Length ==> smtps[i] == None
      ensures log == o + LoggedBefore(run, hi, hi)
      ensures Progress(run, o, first, hi, hi, [], count, log, created)
    {
      CounterAfterBatch(lo, hi);
      ghost var launched := log;
      count := CloseBatch(lo, tThreads, nSendMails, smtps);
      CloseStep(run, o, lo, hi, nSendMails > maxThread * 10, tThreads, launched, log);
      ProgressFlushed(run, o, first, lo, hi, count, log, created);
    }

    /** The end of a batch: past `maxThread * 10` sent mails the counter is
        cleared and the slots are to be reset; then every thread of the batch
        is joined in order. Returns the new counter. */
    method CloseBatch(ghost lo: nat, tThreads: seq<nat>, nSendMails: nat, smtps: array<Option<ConnId>>)
      returns (count: nat)
      requires lo % MaxThread == 0 && |tThreads| <= smtps.Length == MaxThread
      requires tThreads == Jobs(lo, lo + |tThreads|)
      requires forall i :: 0 <= i < smtps.Length ==> smtps[i] == None
      modifies this, smtps
      ensures created == old(created)
      ensures forall i :: 0 <= i < smtps.Length ==> smtps[i] == None
      ensures count == if nSendMails > maxThread * 10 then 0 else nSendMails
      ensures log == old(log) + (if nSendMails > maxThread * 10 then [Recycle] else []) + JoinsOf(tThreads)
    {
      count := nSendMails;
      var fResetSmtp := false;
      if count > maxThread * 10 {
        count := 0;
        fResetSmtp := true;
        log := log + [Recycle];
      }
      JoinAll(lo, tThreads, fResetSmtp, smtps);
    }

    /** The `for jdx, t_thread in enumerate(t_threads)` loop of a flush: join
        every thread in order and, when the reset flag is set, close and clear
        the slot of the same position, which is the slot its job read. */
    method JoinAll(ghost lo: nat, tThreads: seq<nat>, fResetSmtp: bool, smtps: array<Option<ConnId>>)
      requires lo % MaxThread == 0 && |tThreads| <= smtps.Length == MaxThread
      requires tThreads == Jobs(lo, lo + |tThreads|)
      requires forall i :: 0 <= i < smtps.Length ==> smtps[i] == None
      modifies this, smtps
      ensures created == old(created)
      ensures forall i :: 0 <= i < smtps.Length ==> smtps[i] == None
      ensures log == old(log) + JoinsOf(tThreads)
    {
      var jdx := 0;
      while jdx < |tThreads|
        invariant 0 <= jdx <= |tThreads|
        invariant forall i :: 0 <= i < smtps.Length ==> smtps[i] == None
        invariant created == old(created)
        invariant log == old(log) + JoinsOf(tThreads[..jdx])
      {
        JoinThread(tThreads[jdx]);
        if fResetSmtp {
          SlotPos(lo, lo + |tThreads|, jdx);
          assert tThreads[jdx] % maxThread == jdx;
          var slot := smtps[jdx];
          if slot != None {
            // `smtp.close()` would run here, but no slot is ever filled
            assert false;
          }
          smtps[jdx] := None;
        }
        JoinsOfTake(tThreads, jdx);
        jdx := jdx + 1;
      }
      assert tThreads[..jdx] == tThreads;
    }
  }

  /** A batch that is neither full nor the last one stays open. */
  lemma {:induction false} OpenContinues(run: Plan, o: seq<Event>, first: ConnId, lo: nat, hi: nat,
                      threads: seq<nat>, count: nat, log: seq<Event>, created: nat)
    requires Open(run, o, first, lo, hi, threads, count, log, created)
    requires hi < lo + MaxThread && hi < |run.messages|
    ensures Progress(run, o, first, lo, hi, threads, count, log, created)
  {
  }

  /** The events `LaunchJob` logs for job `idx` on connection `c` extend the
      open batch of `run`; unless the batch is then full or the run ends, the
      loop goes on with it. */
  lemma {:induction false} JobInRun(run: Plan, o: seq<Event>, first: ConnId, lo: nat, idx: nat,
                 threads: seq<nat>, count: nat, message: seq<byte>,
                 before: seq<Event>, c: nat, after: seq<Event>)
    requires |run.receivers| > 0 && idx < |run.messages| && run.messages[idx] == message
    requires run.firstConn == first
    requires Progress(run, o, first, lo, idx, threads, count, before, c)
    requires after == before + [Connect(c, run.host, run.port),
                                Event.Login(c, run.sender, run.password),
                                Start(idx, c, run.sender,
                                      if run.toAll then ToAll(run.receivers)
                                      else To(run.receivers[RoundRobin(idx, |run.receivers|)]),
                                      message)]
    ensures Open(run, o, first, lo, idx + 1, threads + [idx], count + 1, after, c + 1)
  {
    JobLaunchIs(run, idx, c, message);
    ProgressLaunch(run, o, first, lo, idx, threads, count, before, c, after);
  }

  /** Launching job `idx` extends the open batch; unless the batch is then
      full or the run ends, the loop goes on with it. */
  lemma {:induction false} ProgressLaunch(run: Plan, o: seq<Event>, first: ConnId, lo: nat, idx: nat,
                       threads: seq<nat>, count: nat, before: seq<Event>, c: nat, after: seq<Event>)
    requires |run.receivers| > 0 && idx < |run.messages|
    requires Progress(run, o, first, lo, idx, threads, count, before, c)
    requires after == before + JobLaunch(run, idx)
    ensures Open(run, o, first, lo, idx + 1, threads + [idx], count + 1, after, c + 1)
  {
    LaunchStep(run, o, lo, idx, before, after);
    JobsSnoc(lo, idx);
  }

  /** Once every job of `run` is resolved, the log holds the whole run. */
  lemma {:induction false} ProgressDone(run: Plan, o: seq<Event>, first: ConnId, lo: nat,
                                        threads: seq<nat>, count: nat, log: seq<Event>, created: nat)
    requires |run.receivers| > 0
    requires Progress(run, o, first, lo, |run.messages|, threads, count, log, created)
    ensures created == first + |run.messages| && log == o + Trace(run)
  {
  }

  /** After the flush of the batch that ends at `hi` the loop starts the next
      batch there with no thread pending. */
  lemma {:induction false} ProgressFlushed(run: Plan, o: seq<Event>, first: ConnId, lo: nat, hi: nat, count: nat,
                        log: seq<Event>, created: nat)
    requires |run.receivers| > 0 && lo % MaxThread == 0 && lo < hi <= |run.messages| && hi <= lo + MaxThread
    requires hi % MaxThread == 0 || hi == |run.messages|
    requires log == o + LoggedBefore(run, hi, hi)
    requires hi < |run.messages| ==> hi % MaxThread == 0 && count == CountAt(hi)
    requires created == first + hi
    ensures Progress(run, o, first, hi, hi, [], count, log, created)
  {
  }

  /** Within a batch, the thread at position `jdx` is job `lo + jdx`, whose
      slot `idx % max_thread` is `jdx`. */
  lemma {:induction false} SlotPos(lo: nat, hi: nat, jdx: nat)
    requires lo % MaxThread == 0 && lo <= hi <= lo + MaxThread && jdx < hi - lo
    ensures Jobs(lo, hi)[jdx] == lo + jdx && Jobs(lo, hi)[jdx] % MaxThread == jdx
  {
    DivTen(lo + jdx, lo / 10, jdx);
  }

  lemma {:induction false} JobsSnoc(lo: nat, hi: nat)
    requires lo <= hi
    ensures Jobs(lo, hi + 1) == Jobs(lo, hi) + [hi]
  {
  }

  /** Joining the threads `ts` one after the other. */
  function JoinsOf(ts: seq<nat>): seq<Event>
  {
    if |ts| == 0 then [] else JoinsOf(ts[..|ts| - 1]) + [Event.Join(ts[|ts| - 1])]
  }

  lemma {:induction false} JoinsOfSnoc(ts: seq<nat>, t: nat)
    ensures JoinsOf(ts + [t]) == JoinsOf(ts) + [Event.Join(t)]
  {
    assert (ts + [t])[..|ts|] == ts;
  }

  lemma {:induction false} JoinsOfTake(ts: seq<nat>, j: nat)
    requires j < |ts|
    ensures JoinsOf(ts[..j + 1]) == JoinsOf(ts[..j]) + [Event.Join(ts[j])]
  {
    assert ts[..j + 1][..j] == ts[..j];
  }

  lemma {:induction false} JoinsOfJobs(p: Plan, lo: nat, hi: nat)
    requires |p.receivers| > 0 && lo <= hi <= |p.messages|
    ensures JoinsOf(Jobs(lo, hi)) == Each(p, JoinKind, lo, hi)
    decreases hi
  {
    if lo < hi {
      JoinsOfJobs(p, lo, hi - 1);
      JobsSnoc(lo, hi - 1);
      JoinsOfSnoc(Jobs(lo, hi - 1), hi - 1);
    }
  }

  /** The events `LaunchJob` logs for job `j` on connection `c` are the
      job's launch in a run whose connections start at `c - j`. */
  lemma {:induction false} JobLaunchIs(p: Plan, j: nat, c: ConnId, message: seq<byte>)
    requires |p.receivers| > 0 && j < |p.messages| && c == p.firstConn + j && p.messages[j] == message
    ensures JobLaunch(p, j) ==
      [Connect(c, p.host, p.port),
       Event.Login(c, p.sender, p.password),
       Start(j, c, p.sender,
             if p.toAll then ToAll(p.receivers) else To(p.receivers[RoundRobin(j, |p.receivers|)]),
             message)]
  {
    var target := if p.toAll then ToAll(p.receivers) else To(p.receivers[RoundRobin(j, |p.receivers|)]);
    assert TargetOf(p, j) == target;
    assert JobEvent(p, j, StartKind) == Start(j, c, p.sender, target, message);
  }

  /** Appending a job's launch to the log extends the launches of the open
      batch. */
  lemma {:induction false} LaunchStep(p: Plan, o: seq<Event>, lo: nat, j: nat, before: seq<Event>, after: seq<Event>)
    requires |p.receivers| > 0 && lo % MaxThread == 0 && lo <= j < |p.messages|
    requires before == o + LoggedBefore(p, lo, j)
    requires after == before + JobLaunch(p, j)
    ensures after == o + LoggedBefore(p, lo, j + 1)
  {
  }

  /** Closing the open batch `lo .. hi-1` with the recycle decision and the
      joins of its threads completes the batches up to `hi`. */
  lemma {:induction false} CloseStep(p: Plan, o: seq<Event>, lo: nat, hi: nat, recycle: bool, threads: seq<nat>,
                  before: seq<Event>, after: seq<Event>)
    requires |p.receivers| > 0 && lo % MaxThread == 0 && lo < hi <= |p.messages| && hi <= lo + MaxThread
    requires hi % MaxThread == 0 || hi == |p.messages|
    requires before == o + LoggedBefore(p, lo, hi)
    requires recycle == Recycles(lo, hi) && threads == Jobs(lo, hi)
    requires after == before + (if recycle then [Recycle] else []) + JoinsOf(threads)
    ensures after == o + LoggedBefore(p, hi, hi)
  {
    BatchEndAligned(lo, hi);
    var b, l, r := BatchesUntil(p, lo), Launches(p, lo, hi), if Recycles(lo, hi) then [Recycle] else [];
    var e := Each(p, JoinKind, lo, hi);
    calc {
      after;
      o + (b + l) + r + JoinsOf(Jobs(lo, hi));
      { JoinsOfJobs(p, lo, hi); }
      o + (b + l) + r + e;
      { SeqAssoc(o, b, l, r, e); }
      o + (b + (l + (r + e)));
      o + (b + Batch(p, lo, hi));
      { BatchClosed(p, lo, hi); }
      o + BatchesUntil(p, hi);
      o + LoggedBefore(p, hi, hi);
    }
  }

  lemma {:induction false} SeqAssoc<T>(a: seq<T>, b: seq<T>, c: seq<T>, d: seq<T>, e: seq<T>)
    ensures a + (b + c) + d + e == a + (b + (c + (d + e)))
  {
  }

  /** Closing the batch that starts at `lo` at job `hi`, because it is full or
      the last one: the batches now reach `hi`. */
  lemma {:induction false} BatchClosed(p: Plan, lo: nat, hi: nat)
    requires |p.receivers| > 0 && lo % MaxThread == 0 && lo < hi <= |p.messages| && hi <= lo + MaxThread
    requires hi % MaxThread == 0 || hi == |p.messages|
    ensures BatchesUntil(p, hi) == BatchesUntil(p, lo) + Batch(p, lo, hi)
  {
    BatchStartWithin(lo, hi - 1);
    BatchEndAligned(lo, hi);
  }

  /** After a full batch the counter is the one the next batch starts with. */
  lemma {:induction false} CounterAfterBatch(lo: nat, hi: nat)
    requires lo % MaxThread == 0 && lo < hi <= lo + MaxThread
    ensures hi % MaxThread == 0 <==> hi == lo + MaxThread
    ensures hi % MaxThread == 0 ==>
      CountAt(hi) == if CountAt(lo) + (hi - lo) > RecycleAbove then 0 else CountAt(lo) + (hi - lo)
  {
    BatchEndAligned(lo, hi);
  }
}
