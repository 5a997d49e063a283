/** The functions that end the process group. They call each other in a circle:
    terminating logs, logging may fail, failing terminates. */
module FatalPath {

  datatype Fd = LogFd | ErrorFd | StdoutFd

  datatype Line = Line(fd: Fd, text: string)

  datatype Message = NoMessage | Text(text: string)

  class Process {
    /** The static fields: is_multi_thread_or_proccess, terminate_already_called. */
    var multi: bool
    var terminating: bool

    /** Which files are open, and how the calls to write and gettid turn out. */
    const open: set<Fd>
    const writeWorks: nat -> bool
    const tidWorks: nat -> bool
    var writes: nat
    var tids: nat

    var written: seq<Line>
    /** Set by killing the group. Nothing is executed after that, so a caller that
        finds it set returns: the functions that set it do not return in C++, and
        no destructor of a TerminateOnDestruction is reached. */
    var killed: bool
    ghost var entries: nat

    /** How often Group::terminate has been entered. */
    ghost predicate Valid()
      reads this
    {
      if killed then 1 <= entries <= 2 else entries == if terminating then 1 else 0
    }

    constructor (open: set<Fd>, multi: bool, writeWorks: nat -> bool, tidWorks: nat -> bool)
      ensures Valid() && !killed && !terminating && written == [] && writes == tids == 0
      ensures this.open == open && this.multi == multi && this.writeWorks == writeWorks && this.tidWorks == tidWorks
    {
      this.open, this.multi, this.writeWorks, this.tidWorks := open, multi, writeWorks, tidWorks;
      terminating, killed, written, writes, tids, entries := false, false, [], 0, 0, 0;
    }

    /** Whether a line to fd works out, as the w-th write after the t-th gettid. */
    predicate LineWorks(fd: Fd, multi: bool, w: nat, t: nat) {
      fd in open ==> (multi ==> tidWorks(t)) && writeWorks(w)
    }

    /** Whether a line to the log file and then one to fd work out. */
    predicate LinesWork(fd: Fd, multi: bool, w: nat, t: nat) {
      && LineWorks(LogFd, multi, w, t)
      && var n := if LogFd in open then 1 else 0;
      && LineWorks(fd, multi, w + n, if multi then t + n else t)
    }

    /** Whether the group, if a line fails, is killed without terminating twice: a
        failed write is not logged, a failed gettid is, without naming the thread. */
    predicate LineFailsOnce(multi: bool, w: nat, t: nat) {
      multi && !tidWorks(t) ==> LinesWork(ErrorFd, false, w, t + 1)
    }

    /** The same for two lines. */
    predicate LinesFailOnce(multi: bool, w: nat, t: nat) {
      if !LineWorks(LogFd, multi, w, t) then LineFailsOnce(multi, w, t)
      else
        var n := if LogFd in open then 1 else 0;
        LineFailsOnce(multi, w + n, if multi then t + n else t)
    }

    function LineTo(fd: Fd, text: string): seq<Line> {
      if fd in open then [Line(fd, text)] else []
    }

    function LinesTo(fd: Fd, text: string): seq<Line> {
      LineTo(LogFd, text) + LineTo(fd, text)
    }

    method Kill9Group()
      requires !killed
      modifies this`killed
      ensures killed
    {
      killed := true;
    }

    /** Ends in the kill, whatever happens, having been entered once or twice; twice
        iff it had a message to log for the first time and logging it failed. */
    method Terminate(msg: Message, isError: bool)
      requires Valid() && !killed
      modifies this
      ensures Valid() && killed && old(written) <= written && writes <= old(writes) + 2
      ensures old(terminating) || msg.NoMessage? ==>
                && entries == (if old(terminating) then 2 else 1)
                && written == old(written) && writes == old(writes)
      ensures !old(terminating) && msg.Text? ==>
                var fd := if isError then ErrorFd else StdoutFd;
                && (entries == 1 <==> LinesWork(fd, old(multi), old(writes), old(tids)))
                && (entries == 1 ==> written == old(written) + LinesTo(fd, msg.text))
      decreases if terminating then 0 else 1, 0, 1
    {
      entries := entries + 1;
      if terminating {
        Kill9Group();
        return;
      }
      terminating := true;
      if msg.Text? {
        if isError {
          LogError(msg.text);
        } else {
          LogMessage(msg.text);
        }
        if killed { return; }
      }
      Kill9Group();
    }

    method LogError(text: string)
      requires Valid() && !killed
      modifies this
      ensures Valid() && old(written) <= written && writes <= old(writes) + 3
      ensures old(terminating) ==> writes <= old(writes) + 2
      ensures killed <==> !LinesWork(ErrorFd, old(multi), old(writes), old(tids))
      ensures !killed ==> multi == old(multi) && terminating == old(terminating)
                          && written == old(written) + LinesTo(ErrorFd, text)
      ensures !killed ==> written == old(written) + (if LogFd in open then [Line(LogFd, text)] else [])
                                     + (if ErrorFd in open then [Line(ErrorFd, text)] else [])
      ensures killed && old(terminating) ==> entries == 2
      ensures killed && !old(terminating) ==>
                (entries == 1 <==> LinesFailOnce(old(multi), old(writes), old(tids)))
      decreases if terminating then 0 else 1, 1, 3
    {
      WriteLog(LogFd, text);
      if killed { return; }
      WriteLog(ErrorFd, text);
    }

    method LogMessage(text: string)
      requires Valid() && !killed
      modifies this
      ensures Valid() && old(written) <= written && writes <= old(writes) + 3
      ensures old(terminating) ==> writes <= old(writes) + 2
      ensures killed <==> !LinesWork(StdoutFd, old(multi), old(writes), old(tids))
      ensures !killed ==> multi == old(multi) && terminating == old(terminating)
                          && written == old(written) + LinesTo(StdoutFd, text)
      ensures !killed ==> written == old(written) + (if LogFd in open then [Line(LogFd, text)] else [])
                                     + (if StdoutFd in open then [Line(StdoutFd, text)] else [])
      ensures killed && old(terminating) ==> entries == 2
      ensures killed && !old(terminating) ==>
                (entries == 1 <==> LinesFailOnce(old(multi), old(writes), old(tids)))
      decreases if terminating then 0 else 1, 1, 3
    {
      WriteLog(LogFd, text);
      if killed { return; }
      WriteLog(StdoutFd, text);
    }

    /** A failed write is reported without a message, or this would not end. */
    method WriteLog(fd: Fd, text: string)
      requires Valid() && !killed
      modifies this
      ensures Valid() && old(written) <= written
      ensures writes <= old(writes) + if old(terminating) then 1 else 2
      ensures killed <==> !LineWorks(fd, old(multi), old(writes), old(tids))
      ensures fd in open && !killed ==> written == old(written) + [Line(fd, text)]
      ensures fd !in open ==> !killed && written == old(written)
      ensures !killed ==> multi == old(multi) && terminating == old(terminating)
                          && written == old(written) + LineTo(fd, text)
                          && writes == old(writes) + |LineTo(fd, text)|
                          && tids == old(tids) + if multi then |LineTo(fd, text)| else 0
      ensures killed && old(terminating) ==> entries == 2
      ensures killed && !old(terminating) ==>
                (entries == 1 <==> LineFailsOnce(old(multi), old(writes), old(tids)))
      decreases if terminating then 0 else 1, 1, 2
    {
      if fd in open {
        if multi {
          GetTid();
          if killed { return; }
        }
        var works := writeWorks(writes);
        writes := writes + 1;
        if works {
          written := written + [Line(fd, text)];
        }
        Assert(works, NoMessage);
      }
    }

    /** On failure threads are no longer named in the log, so that terminating can
        still log why. */
    method GetTid()
      requires Valid() && !killed
      modifies this
      ensures Valid() && old(written) <= written
      ensures writes <= old(writes) + if old(terminating) then 0 else 2
      ensures killed <==> !tidWorks(old(tids))
      ensures !killed ==> multi == old(multi) && terminating == old(terminating) && written == old(written)
                          && writes == old(writes) && tids == old(tids) + 1
      ensures killed && old(terminating) ==> entries == 2
      ensures killed && !old(terminating) ==> (entries == 1 <==> LinesWork(ErrorFd, false, old(writes), old(tids) + 1))
      ensures killed && !old(terminating) && entries == 1 ==>
                written == old(written) + LinesTo(ErrorFd, "get_tid() failed.")
      decreases if terminating then 0 else 1, 1, 1
    {
      var works := tidWorks(tids);
      tids := tids + 1;
      if !works {
        multi := false;
        Terminate(Text("get_tid() failed."), true);
      }
    }

    /** Ends in the kill, after logging the message if there is one. */
    method Err(s: Message)
      requires Valid() && !killed
      modifies this
      ensures Valid() && killed && old(written) <= written && writes <= old(writes) + 3
      ensures old(terminating) ==> entries == 2
      ensures s.NoMessage? ==> written == old(written) && writes == old(writes)
                               && entries == (if old(terminating) then 2 else 1)
      ensures s.Text? && LinesWork(ErrorFd, old(multi), old(writes), old(tids)) ==>
                written == old(written) + LinesTo(ErrorFd, s.text) && entries == (if old(terminating) then 2 else 1)
      ensures s.Text? && !LinesWork(ErrorFd, old(multi), old(writes), old(tids)) && !old(terminating) ==>
                (entries == 1 <==> LinesFailOnce(old(multi), old(writes), old(tids)))
      decreases if terminating then 0 else 1, if s.Text? then 2 else 0, 2
    {
      if s.Text? {
        LogError(s.text);
        if killed { return; }
      }
      Terminate(NoMessage, true);
    }

    method Assert(b: bool, s: Message)
      requires Valid() && !killed
      modifies this
      ensures b ==> unchanged(this)
      ensures !b ==> Valid() && killed && old(written) <= written && writes <= old(writes) + 3
      ensures !b && old(terminating) ==> entries == 2
      ensures !b && s.NoMessage? ==> written == old(written) && writes == old(writes)
                                     && entries == (if old(terminating) then 2 else 1)
      ensures !b && s.Text? && LinesWork(ErrorFd, old(multi), old(writes), old(tids)) ==>
                written == old(written) + LinesTo(ErrorFd, s.text) && entries == (if old(terminating) then 2 else 1)
      ensures !b && s.Text? && !LinesWork(ErrorFd, old(multi), old(writes), old(tids)) && !old(terminating) ==>
                (entries == 1 <==> LinesFailOnce(old(multi), old(writes), old(tids)))
      decreases if terminating then 0 else 1, if s.Text? then 2 else 0, 3
    {
      if !b {
        Err(s);
      }
    }
  }
}
