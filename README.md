# Mail sender dispatch engine, in Dafny

This project models the dispatch engine of a mail-migration tool. The engine
is the class `MailSendService` in `service/mail_send_service.py`. Given
receiver addresses and stored mail files, `send_mail` does the following:

- It turns lone strings into one-element lists.
- It pads the mail list against the receiver list.
- It reads each stored message through `read_qs`. That function drops the
  container's first line and keeps lines up to a sentinel line.
- It sends one mail per path, round-robin over the receivers, or to all of
  them in broadcast mode. Each send runs on its own thread.
- It works in batches of `max_thread` (10) threads, joining each batch before
  the next one starts.
- It counts the mails sent since the last reset. At the end of the first
  batch where the count exceeds 100 (the batch that starts at job 100, 210,
  320, and so on), it clears the count and empties the connection slots,
  which as written are already empty.

The project has five modules, one file each:

| file | module | models |
|---|---|---|
| `text.dfy` | `Text` | `bytes.split` / `str.split` and the `in` test on byte strings |
| `archive_reader.dfy` | `ArchiveReader` | `read_qs`: the `.gz` test and the framing loop |
| `pairing.dfy` | `Pairing` | `__mail_paths_add` (the padding rule) and round-robin reach |
| `schedule.dfy` | `Schedule` | the events one `send_mail` run produces, job by job and batch by batch, and the states of its loop (`Progress`, `Open`) |
| `mail_send_service.dfy` | `Service` | the class itself: configuration, SMTP and thread calls, and the imperative `send_mail` loop |

The SMTP and thread calls of the service are its boundary. Each call appends
an `Event` to a ghost `log`, and so does one assignment that is not a call:

- `Connect` and `Login` for `smtplib.SMTP(...)` and `smtp.login(...)`;
- `Start` for a thread that will call `sendmail`;
- `Recycle`, a marker the model adds for the assignment `f_reset_smtp = True`
  (line 92);
- `Join` for `t_thread.join()`;
- `Close` for `smtp.close()`.

`Schedule.Trace` is the specification of a whole run. It is a pure function
of the `Plan`: the service's configuration, the normalised receivers, the
broadcast flag, the message of each padded path, and the id of the first
connection. `Service.MailSendService.SendMail` is proved to append exactly
that trace to the log.

The file system is a `Store` parameter. It holds the raw bytes of each path
and a gzip decompressor.

## Behaviour as written

In three places the code does something other than what its own structure
suggests was meant. The model follows the code.

- **Connections are never reused.** The array `smtps` of 10 slots (line 69),
  the `if smtp is None` test before connecting (line 74) and the reset of a
  slot's connection at lines 96-99 point to one connection per slot, opened
  once and reused until it is recycled. But while `smtps` is read at line 73,
  nothing ever stores a connection in it. So every job opens and logs in on
  a new connection (lines 74-76), and none is ever closed. `Schedule.TraceConnects` and
  `Schedule.TraceLogins` state this: job `j` uses connection
  `firstConn + j`. `Schedule.NoCloseInBatches` states that no `Close` event
  ever happens. `Service.MailSendService.JoinAll` keeps the invariant that
  every slot is empty, so the `smtp.close()` branch (lines 97-98) cannot be
  reached.
- **Padding may not reach every receiver.** `__mail_paths_add` is named and
  called (line 68) so that the mail list becomes as long as the receiver list,
  and its shortage computation (line 55) says so. The code appends
  `mail_paths[0:shortage]` (line 56), and that slice holds at most
  `len(mail_paths)` entries. When there are more than twice as many
  receivers as mails, the padded list is shorter than the receiver list, and
  when `to_all` is false some receivers get no mail (in broadcast mode, lines
  81-82 send every mail to all of them). `Pairing.PaddedCyclic` gives the exact length,
  `min(|R|, 2|M|)`. `Pairing.PaddedReachesReceivers` proves the padded list
  covers the receivers exactly when `|R| <= 2|M|`.
- **An empty receiver list fails partway.** The model does not require a
  non-empty receiver list. The code connects and logs in for the first job
  (lines 75-76), reads the message, and then `idx % len(receiver_addrs)`
  (line 78) raises `ZeroDivisionError`. `SendMail` returns `ZeroDivision`
  after logging exactly those two events.

## Model

| member | source | states |
|---|---|---|
| Text.Split | service/mail_send_service.py:32 | `bytes.split(sep)` gives at least one piece, and no piece contains the separator. There is exactly one piece iff the input has no separator. |
| Text.JoinSplit | service/mail_send_service.py:32 | Joining the pieces of a split with the separator gives back the input: nothing is lost. |
| Text.SplitJoin | service/mail_send_service.py:32 | Splitting a join of separator-free pieces gives back those pieces. |
| Text.SplitWithoutSep | service/mail_send_service.py:32 | A sequence without the separator splits into itself alone. |
| Text.SplitAfterPiece | service/mail_send_service.py:32 | A separator-free prefix followed by the separator splits off as the first piece, and the rest splits independently. |
| Text.Contains | service/mail_send_service.py:35 | Definition of the `in` test on byte strings: the pattern occurs at some offset. The `Text.Contains…` lemmas and `Text.WindowAt` carry its properties. |
| Text.ContainsInEmpty | service/mail_send_service.py:35 | Only the empty pattern occurs in an empty line. |
| Text.ContainsInfix | service/mail_send_service.py:35 | A pattern found in `b` is found in `a + b + c`. |
| Text.WindowAt | service/mail_send_service.py:35 | An occurrence at `i` fixes the bytes `s[i .. i+|p|-1]` to the pattern. |
| Text.ContainsAcrossSep | service/mail_send_service.py:35 | A pattern without the separator byte that occurs in `a + [sep] + b` occurs in `a` or in `b`. |
| Text.WindowInTail | service/mail_send_service.py:35 | A window in the part after the separator is the same window of `b`. |
| Text.ContainsPieceOfJoin | service/mail_send_service.py:35 | A pattern found in one piece is found in the join of the pieces. |
| ArchiveReader.SentinelShape | service/mail_send_service.py:35 | The sentinel is 42 bytes long and holds no newline, so it can only be found within a single line. |
| ArchiveReader.Lower | service/mail_send_service.py:26 | A name lowers to "gz" exactly when it is `g` or `G` followed by `z` or `Z`. |
| ArchiveReader.LastPiece | service/mail_send_service.py:26 | `split(".")[-1]` is the part of the name after its last dot, or the whole name when there is no dot. |
| ArchiveReader.GzSuffix | service/mail_send_service.py:26 | That last part is "gz" in any case iff the name ends in "gz" in any case and the two letters are the whole name or follow a dot. |
| ArchiveReader.IsGzPath | service/mail_send_service.py:26 | Definition of the gzip test: the last dot-separated piece of the name, lowered, is "gz". `ArchiveReader.IsGzPathIff` states what it decides. |
| ArchiveReader.IsGzPathIff | service/mail_send_service.py:26-29 | The gzip test of `read_qs` holds iff the name's extension after the last dot is "gz" in any letter case (or the name itself is "gz"). |
| ArchiveReader.Store.Read | service/mail_send_service.py:26-30 | Definition of the file read: the gunzipped raw bytes for a gzip name, the raw bytes otherwise. `ArchiveReader.ReadQs` and `ArchiveReader.FramedContainer` are stated over it. |
| ArchiveReader.SentinelIndex | service/mail_send_service.py:32-36 | Returns the first line from `from` on that contains the sentinel, or the line count if none does. No earlier line contains it. |
| ArchiveReader.ReadQs | service/mail_send_service.py:23-39 | The method's loop, proved with its invariants: it returns `Framed` of the bytes the store gives, gunzipped for a `.gz` name. That is, it skips line 0 and copies each later line plus a newline up to, and not including, the first line that contains the sentinel. |
| ArchiveReader.Terminated | service/mail_send_service.py:37 | Definition of the output buffer: each copied line followed by a newline. `ArchiveReader.TerminatedSnoc` and `ArchiveReader.TerminatedIsJoin` carry its properties. |
| ArchiveReader.TerminatedSnoc | service/mail_send_service.py:37 | Appending `line + b'\n'` to the output extends it by one terminated line. |
| ArchiveReader.TerminatedIsJoin | service/mail_send_service.py:37 | The terminated lines are their newline join followed by a final newline. |
| ArchiveReader.TerminatedPrefix | service/mail_send_service.py:32-37 | Copying fewer lines gives a prefix of the output. |
| ArchiveReader.TerminatedAvoids | service/mail_send_service.py:35-37 | Lines that each avoid a newline-free pattern still avoid it once they are joined with newlines. |
| ArchiveReader.HeaderShape | service/mail_send_service.py:32-34 | The dropped line 0 is the longest newline-free prefix of the data, and a newline follows it iff the data has one. |
| ArchiveReader.Framed | service/mail_send_service.py:31-37 | Definition of the framing: the lines after line 0 and before the first sentinel line, each terminated. `ArchiveReader.FramedLines`, `ArchiveReader.FramedAvoidsSentinel` and `ArchiveReader.FramedIsPrefix` carry its properties. |
| ArchiveReader.FramedWithoutNewline | service/mail_send_service.py:32-34 | Data without a newline is all header, so the result is empty. |
| ArchiveReader.SplitAfterHeader | service/mail_send_service.py:32 | The lines after line 0 split exactly the bytes after the first newline. |
| ArchiveReader.FramedWithoutSentinel | service/mail_send_service.py:32-37 | With no sentinel after the header, the result is every byte after the first newline, plus one newline. |
| ArchiveReader.FramedAvoidsSentinel | service/mail_send_service.py:35-37 | The output never contains the sentinel. |
| ArchiveReader.FramedIsPrefix | service/mail_send_service.py:32-37 | The output is a prefix of the bytes after the header plus a newline, is empty without a newline, and is never longer than the input minus the header. |
| ArchiveReader.FramedPrefixOfBody | service/mail_send_service.py:32-37 | With a newline in the data, the output is a prefix of the body plus a final newline. |
| ArchiveReader.FramedTakesBody | service/mail_send_service.py:32-37 | The output is the body lines before the first sentinel line, each terminated. |
| ArchiveReader.BodyTerminated | service/mail_send_service.py:32-37 | All the body lines, terminated, are the bytes after the first newline plus one newline. |
| ArchiveReader.FramedLines | service/mail_send_service.py:32-37 | Splitting the output at newlines gives back the copied lines, plus the empty piece after the final newline. |
| ArchiveReader.SentinelIndexAt | service/mail_send_service.py:35-36 | If no line from `from` to `k - 1` holds the sentinel, and line `k` holds it or `k` is the line count, then `k` is where the loop stops. |
| ArchiveReader.FramedContainer | service/mail_send_service.py:23-39 | Round trip: for a stored file made of a header line, sentinel-free body lines and a trailer starting with a sentinel line, the reader returns exactly the terminated body. |
| Pairing.AsList | service/mail_send_service.py:61-67 | Definition of the normalisation: a lone string becomes a one-element list, a list stays. `Service.MailSendService.SendMail` is stated over it. |
| Pairing.MailPathsAdd | service/mail_send_service.py:50-58 | Padding never drops or reorders the given mail list: the result is a list that extends it. |
| Pairing.PaddedCyclic | service/mail_send_service.py:50-58 | With more receivers than mails, the padded list has length `min(|R|, 2|M|)`, keeps the mails as its prefix, and entry `i` is mail `i mod |M|`. |
| Pairing.NotPadded | service/mail_send_service.py:51-58 | When either argument is a lone string, or the receivers are no more than the mails, the mail argument comes back unchanged. |
| Pairing.PaddedReachesReceivers | service/mail_send_service.py:54-57 | The padded list is at least as long as the receiver list iff `|R| <= 2|M|`. |
| Pairing.RoundRobinReaches | service/mail_send_service.py:78 | Over `n` jobs, round robin `j mod |R|` reaches receiver `rho` iff `rho < n`. |
| Schedule.RoundRobin | service/mail_send_service.py:78 | The receiver index is below the receiver count. |
| Schedule.RoundRobinIsMod | service/mail_send_service.py:78 | The round-robin index, counted a lap at a time, is `idx % len(receiver_addrs)`. |
| Schedule.BatchStart | service/mail_send_service.py:88 | Every job lies in the batch that starts at the multiple of 10 at or below it. |
| Schedule.BatchStartWithin | service/mail_send_service.py:88 | Any job of the batch that starts at `lo` has `lo` as its batch start. |
| Schedule.BatchEndAligned | service/mail_send_service.py:88 | A batch ends on a multiple of 10 iff it is full. |
| Schedule.CountAt | service/mail_send_service.py:84-92 | Definition of `n_send_mails` at each batch start, batch by batch. `Schedule.CountAtClosedForm` and `Schedule.RecyclesIff` carry its properties. |
| Schedule.CountAtClosedForm | service/mail_send_service.py:86-91 | At a batch start `lo`, `n_send_mails` equals `lo mod 110`: ten full batches count to 100, and the eleventh pushes it past 100 and clears it. |
| Schedule.RecyclesIff | service/mail_send_service.py:88-92 | A batch ends with a reset iff it starts at `lo mod 110 == 100`. The counter never exceeds 100 at a batch start or 110 at a flush. |
| Schedule.CycleBounds | service/mail_send_service.py:90 | The counter test `n_send_mails > 100` at a flush holds exactly for the batch that starts at counter 100. |
| Schedule.SelectBatch | service/mail_send_service.py:72-100 | Each kind of event in a batch appears once per job of the batch, in job order. |
| Schedule.SelectFlush | service/mail_send_service.py:88-100 | A flush starts no thread and joins each job of its batch in order. |
| Schedule.SelectBatchesUntil | service/mail_send_service.py:72-100 | The batches up to `hi` hold, for each kind, one event per job `0 .. hi-1` in order. |
| Schedule.Trace | service/mail_send_service.py:72-100 | Definition of a whole run's events, batch by batch. The `Schedule.Trace…` lemmas state what it holds, and `Service.MailSendService.SendMail` is proved to log it. |
| Schedule.TargetOf | service/mail_send_service.py:78-82 | Definition of a job's receivers: the whole list with `to_all`, otherwise the round-robin receiver. `Schedule.TraceStarts` carries it into the trace. |
| Schedule.TraceKind | service/mail_send_service.py:72-100 | In a whole run, the events of each kind are one per job, in job order. |
| Schedule.TraceJobs | service/mail_send_service.py:72-94 | In a whole run, job `j` connects and logs in on connection `firstConn + j` with the configured host, port and credentials. It starts one send from `sender_uid` of message `j`, to receiver `j mod |R|` or to the whole list, and it is joined. |
| Schedule.TraceConnects | service/mail_send_service.py:73-75 | Every job opens its own connection to the configured host and port: no slot is ever reused. |
| Schedule.TraceLogins | service/mail_send_service.py:76 | Every job logs in on its new connection with the configured credentials. |
| Schedule.TraceStarts | service/mail_send_service.py:77-83 | Job `j` sends message `j` from `sender_uid`, to receiver `j mod |R|` or, in broadcast mode, to the whole list. |
| Schedule.NoCloseInBatches | service/mail_send_service.py:95-99 | No connection is ever closed during a run. |
| Schedule.BatchInFlight | service/mail_send_service.py:83-99 | At every point within one batch, at most that batch's number of threads are started and not yet joined. |
| Schedule.InFlightUntil | service/mail_send_service.py:72-100 | At every point of the batches up to `hi`, at most 10 threads are in flight. |
| Schedule.InFlight | service/mail_send_service.py:72-100 | At every point of a whole run, at most `max_thread` send threads are started and not yet joined. |
| Schedule.BatchesGrow | service/mail_send_service.py:88-100 | The batches up to a boundary, plus the next batch, are a prefix of the batches up to any later boundary. |
| Schedule.LastBatch | service/mail_send_service.py:88-100 | The batches up to a later boundary are the batches up to its last batch start, then that batch. |
| Schedule.Barrier | service/mail_send_service.py:88-100 | Before job `hi` (a batch start) launches, every earlier job has been started and joined: batch N is fully joined before batch N+1 begins. |
| Schedule.BatchBeginsWithLaunch | service/mail_send_service.py:72-83 | A batch begins with the launch of its first job. |
| Service.Messages | service/mail_send_service.py:77 | There is one message per mail path. |
| Service.MailSendService.constructor | service/mail_send_service.py:11-21 | Stores the configuration. The data directory is the Windows path iff the platform name, in lower case, contains "window". Nothing has been created or logged yet. |
| Service.MailSendService.OpenSmtp | service/mail_send_service.py:75 | Creates the next connection and logs its `Connect` to the configured host and port. |
| Service.MailSendService.SmtpLogin | service/mail_send_service.py:76 | Logs a `Login` with the given credentials and creates nothing. |
| Service.MailSendService.StartStat | service/mail_send_service.py:41-48 | Starts the thread of a job. Its send is from `sender_uid` whatever `from_addr` is passed, as line 42 does. |
| Service.MailSendService.JoinThread | service/mail_send_service.py:94 | Logs the join of one thread. |
| Service.MailSendService.SendMail | service/mail_send_service.py:60-100 | With no mails, returns at once and calls nothing. With mails but no receivers, connects and logs in once and then fails with `ZeroDivision`. Otherwise, it creates one connection per padded path and appends exactly `Schedule.Trace` of the run to the log. |
| Service.MailSendService.SendBatches | service/mail_send_service.py:69-100 | The job loop, proved with its invariant `Progress`: the same outcomes over already normalised and padded lists. |
| Service.MailSendService.NewSlots | service/mail_send_service.py:69 | `[None] * max_thread`: a fresh array of 10 empty slots. |
| Service.MailSendService.SendJob | service/mail_send_service.py:72-100 | One turn of the loop keeps `Progress` and uses one new connection. Without receivers it stops after the connect and login. |
| Service.MailSendService.EndOfJob | service/mail_send_service.py:84-100 | After a launch, it flushes the batch when it holds 10 threads or no path remains, and otherwise keeps it open. Either way `Progress` holds for the next job, and every slot stays empty. |
| Service.MailSendService.LaunchInRun | service/mail_send_service.py:72-83 | Launching job `idx` moves the loop from `Progress` to `Open`, with the job's launch events appended. |
| Service.MailSendService.LaunchJob | service/mail_send_service.py:72-83 | With every slot empty, it connects and logs in on a new connection, then reads the message. It fails for an empty receiver list. Otherwise it starts job `idx` with message `read_qs(path)` to receiver `idx mod |R|`, or to all of them. |
| Service.MailSendService.FinishBatch | service/mail_send_service.py:88-100 | Closing a full or final batch leaves the log holding every batch up to `hi` and the counter at `CountAt(hi)`. |
| Service.MailSendService.CloseBatch | service/mail_send_service.py:88-100 | The counter is cleared iff it exceeds 100, in which case a `Recycle` is logged. Then the batch's threads are joined in order, and the slots stay empty. |
| Service.MailSendService.JoinAll | service/mail_send_service.py:93-99 | Joins every thread of the batch in order. On a reset, the slot `smtps[jdx]` it empties is the slot `idx % 10` its job read. Slot resets leave every slot empty, and no connection is closed. |
| Service.SlotPos | service/mail_send_service.py:93-99 | Within a batch, the thread at position `jdx` is job `lo + jdx`, and its slot `idx % 10` is `jdx` (the slot line 99 resets). |
| Service.OpenContinues | service/mail_send_service.py:88 | A batch that is neither full nor last stays open to the next job. |
| Service.JobInRun | service/mail_send_service.py:72-83 | The events one job logs are exactly that job's launch in the run. |
| Service.ProgressLaunch | service/mail_send_service.py:72-86 | A launch moves the loop state from before job `idx` to after it, adding one thread and one to the counter. |
| Service.ProgressDone | service/mail_send_service.py:72-100 | When the loop ends, the log holds the whole run and one connection per job. |
| Service.ProgressFlushed | service/mail_send_service.py:88-100 | After a flush the loop state is at a batch start with no pending thread. |
| Service.JobsSnoc | service/mail_send_service.py:83 | Appending the new thread extends the batch's thread list by its job. |
| Service.JoinsOfJobs | service/mail_send_service.py:93-94 | Joining the batch's threads gives the run's join events for those jobs. |
| Service.JobLaunchIs | service/mail_send_service.py:74-83 | A job's launch in the run is its connect, login and start on connection `firstConn + j`. |
| Service.LaunchStep | service/mail_send_service.py:72-83 | One launch extends what was logged before job `j` to what is logged before job `j + 1`. |
| Service.CloseStep | service/mail_send_service.py:88-100 | The flush of an open batch extends the log to all batches up to `hi`. |
| Service.BatchClosed | service/mail_send_service.py:88-100 | The batches up to the end of a batch are those before it, then the batch. |
| Service.CounterAfterBatch | service/mail_send_service.py:86-92 | The counter after a full batch is the one `CountAt` predicts: cleared past 100, otherwise the old count plus the batch size. |

## Left out

- `load_mail_data` (lines 103-121) is not modelled. It walks the file system, filters by name and size, and shuffles randomly. The mail paths are inputs to `send_mail` instead.
- `send_all` and the `__main__` block (lines 124-134) are not modelled. They only wire fixed arguments into the class.
- Opening, reading and closing files and gzip decompression (lines 27-30, 38) are the `Store` parameter: raw bytes per path and a decompression function. RFC 1952 itself is not modelled.
- The SMTP protocol and `smtp.sendmail` (line 42) are not modelled. Each call is an event in the log, and the send a thread performs is recorded in its `Start` event.
- Thread concurrency, the daemon flag and the order in which send threads run are not modelled. A thread is its job number, and `join` is a `Join` event.
- Exceptions raised by the SMTP calls or by file reads are not modelled. The model assumes each call returns.
- The progress messages printed at lines 64 and 85 are not modelled.
- `platform.system()` (line 18) is a constructor parameter.
- `utils/utills.py` is not part of this model.
- ArchiveReader.Lower: maps only the ASCII capitals `A`-`Z`, whereas Python's `str.lower` maps all Unicode capitals. Only the comparison with "gz" and the search for "window" depend on it, and for those two the ASCII map decides the same as Python's: the only non-ASCII characters whose lowercase begins with an ASCII letter are U+0130, which lowers to `i` followed by a combining dot, and U+212A (the Kelvin sign), which lowers to `k`; neither lets "gz" or "window" match.
- Service.MailSendService.SendMail: the model takes a string or a list for each argument. Other argument types, which Python would also accept or reject at run time, are not modelled.
