/** The retry budget of the asynchronous resolver, over every interleaving. */
module ResolverRetries {
  import opened Basics
  import opened Arp
  import opened Resolver

  /** What has happened to a task since it started: how many of its windows ran
      out, whether its last read of the cache found its IP, whether it was dropped. */
  datatype Ledger = Ledger(expired: nat, found: bool, aborted: bool)

  const FRESH := Ledger(0, false, false)

  function Note(w: World, a: Action, t: TaskId, l: Ledger): Ledger {
    match a
    case Start(u, ip) => if u == t && t !in w.tasks && ip != 0 then FRESH else l
    case Advance(u, timer) =>
      if u != t || t !in w.tasks || !(w.tasks[t].Reading? || w.tasks[t].Rereading?) then l
      else if Cached(w, w.tasks[t].claim.ip) then l.(found := true)
      else if timer && w.tasks[t].Rereading? then l.(expired := l.expired + 1)
      else l
    case Abort(u) => if u == t && t in w.tasks && w.tasks[t].Pending? then l.(aborted := true) else l
    case _ => l
  }

  function NoteAll(w: World, acts: seq<Action>, t: TaskId, l: Ledger): Ledger
    decreases |acts|
  {
    if acts == [] then l else NoteAll(Apply(w, acts[0]), acts[1..], t, Note(w, acts[0], t, l))
  }

  /** The reasons to stop waiting. */
  predicate Done(l: Ledger) {
    l.found || l.aborted || l.expired == 3
  }

  /** The windows still to come and the windows that ran out add up to three. */
  predicate Accounted(w: World, t: TaskId, l: Ledger) {
    t in w.tasks ==>
      match w.tasks[t]
      case Scanning(_, _) => l == FRESH
      case Claiming(_, _, _) => l == FRESH
      case Dropping(_, left) =>
        if l.found || l.aborted then left == 0 && l.expired <= 3 else 0 < l.expired && l.expired + left == 3
      case Releasing(_) => Done(l) && l.expired <= 3
      case s => !l.found && !l.aborted && l.expired + s.left == 2
  }

  lemma AdvanceAccounted(w: World, t: TaskId, timer: bool, l: Ledger)
    requires t in w.tasks && Accounted(w, t, l)
    ensures Accounted(AdvanceTask(w, t, timer), t, Note(w, Advance(t, timer), t, l))
  {
  }

  /** No step of anyone else, receivers included, touches a task. */
  lemma OthersLeaveTask(w: World, a: Action, t: TaskId)
    requires a.Hear? || a.Wake? || a.task != t
    ensures t in Apply(w, a).tasks <==> t in w.tasks
    ensures t in w.tasks ==> Apply(w, a).tasks[t] == w.tasks[t]
  {
  }

  lemma StepAccounted(w: World, a: Action, t: TaskId, l: Ledger)
    requires Accounted(w, t, l)
    ensures Accounted(Apply(w, a), t, Note(w, a, t, l))
  {
    if a.Hear? || a.Wake? || a.task != t {
      OthersLeaveTask(w, a, t);
    } else if a.Advance? && t in w.tasks {
      AdvanceAccounted(w, t, a.timer, l);
    }
  }

  lemma {:induction false} RunAccounted(w: World, acts: seq<Action>, t: TaskId, l: Ledger)
    requires Accounted(w, t, l)
    ensures Accounted(Exec(w, acts), t, NoteAll(w, acts, t, l))
    decreases |acts|
  {
    if acts != [] {
      StepAccounted(w, acts[0], t, l);
      RunAccounted(Apply(w, acts[0]), acts[1..], t, Note(w, acts[0], t, l));
    }
  }

  /** In every run from boot a task gives its claim up only once its IP was in the
      cache at its last read, it was dropped, or three windows ran out; once one of
      these holds it never waits again; and no fourth window ever runs out. */
  lemma ReleasesWhenDone(acts: seq<Action>, t: TaskId)
    ensures var w, l := Exec(BOOT, acts), NoteAll(BOOT, acts, t, FRESH);
            t in w.tasks ==>
              && l.expired <= 3
              && (w.tasks[t].Releasing? ==> Done(l))
              && (Done(l) ==> w.tasks[t].Releasing? || (w.tasks[t].Dropping? && w.tasks[t].left == 0))
  {
    RunAccounted(BOOT, acts, t, FRESH);
  }
}
