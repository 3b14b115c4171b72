/** What the pool does with connections over a whole run, told from the events of the run. */
module PoolHistory {
  import opened ByteStrings
  import opened HeaderMap
  import ParserSpec
  import Framing
  import opened Exchanges
  import opened ConnectionPool

  type Codec = ParserSpec.Codec
  type Response = ParserSpec.Response

  /** The key of the request that task `t` began last. */
  function LastBegin(events: seq<Event>, t: nat): Option<Key> {
    if events == [] then None
    else
      match events[|events| - 1]
      case Begin(u, key) => if u == t then Some(key) else LastBegin(events[..|events| - 1], t)
      case _ => LastBegin(events[..|events| - 1], t)
  }

  /** The key that connection `c` was opened for: that of the request whose task opened it. */
  function OpenedFor(events: seq<Event>, c: nat): Option<Key> {
    if events == [] then None
    else
      match events[|events| - 1]
      case Connected(t, d) =>
        if d == c then LastBegin(events[..|events| - 1], t) else OpenedFor(events[..|events| - 1], c)
      case _ => OpenedFor(events[..|events| - 1], c)
  }

  function KeyOf(task: Task): Option<Key> {
    if task.Idle? then None else Some(task.key)
  }

  predicate TaskKeyed(past: seq<Event>, s: Sys, t: nat) {
    var task := TaskOf(s, t);
    && (KeyOf(task).Some? ==> LastBegin(past, t) == KeyOf(task))
    && (ConnOf(task).Some? ==> OpenedFor(past, ConnOf(task).value) == KeyOf(task))
  }

  ghost predicate Keyed(past: seq<Event>, s: Sys) {
    && (forall t: nat :: TaskKeyed(past, s, t))
    && (forall key, i: nat :: key in s.pool && i < |s.pool[key]| ==> OpenedFor(past, s.pool[key][i]) == Some(key))
  }

  /** What an event can do to a task. */
  lemma NextTask(codec: Codec, s: Sys, e: Event, t: nat)
    requires Can(codec, s, e)
    ensures var task, task' := TaskOf(s, t), TaskOf(Next(codec, s, e), t);
      match e
      case Begin(u, key) => task' == if u == t then Picking(key) else task
      case Take(u) =>
        if u != t then task' == task
        else if task.key in s.pool && s.pool[task.key] != [] then
          task' == Holding(task.key, s.pool[task.key][|s.pool[task.key]| - 1], true)
        else task' == Connecting(task.key)
      case Connected(u, c) => task' == if u == t then Holding(task.key, c, false) else task
      case _ =>
        || task' == task || task'.Idle?
        || (!task.Idle? && KeyOf(task') == KeyOf(task) && (ConnOf(task') == ConnOf(task) || ConnOf(task') == None))
  {
    hide ParserSpec.Feed, ParserSpec.FeedEof, Reusable, Framing.SelfDelimited;
  }

  /** What an event can do to the pool. */
  lemma NextPool(codec: Codec, s: Sys, e: Event)
    requires Can(codec, s, e)
    ensures var pool, pool' := s.pool, Next(codec, s, e).pool;
      match e
      case Take(t) =>
        var key := TaskOf(s, t).key;
        pool' == if key in pool && pool[key] != [] then pool[key := pool[key][..|pool[key]| - 1]] else pool
      case Finish(t) =>
        var task := TaskOf(s, t);
        pool' == if task.keep
                 then pool[task.key := (if task.key in pool then pool[task.key] else []) + [task.conn]]
                 else pool
      case CloseClient => pool' == map[]
      case _ => pool' == pool
  {
    hide ParserSpec.Feed, ParserSpec.FeedEof, Reusable, Framing.SelfDelimited;
  }

  lemma BeginAfter(past: seq<Event>, e: Event, t: nat)
    ensures LastBegin(past + [e], t) == if e.Begin? && e.task == t then Some(e.key) else LastBegin(past, t)
  {
    assert (past + [e])[..|past|] == past;
  }

  lemma OpenedAfter(past: seq<Event>, e: Event, c: nat)
    ensures OpenedFor(past + [e], c)
         == if e.Connected? && e.conn == c then LastBegin(past, e.task) else OpenedFor(past, c)
  {
    assert (past + [e])[..|past|] == past;
  }

  lemma TaskStaysKeyed(codec: Codec, past: seq<Event>, s: Sys, e: Event, t: nat)
    requires SysInv(codec, s) && Keyed(past, s) && Can(codec, s, e)
    ensures TaskKeyed(past + [e], Next(codec, s, e), t)
  {
    hide SysInv, Next, Framing.SelfDelimited, LastBegin, OpenedFor;
    NextTask(codec, s, e, t);
    BeginAfter(past, e, t);
    HolderAt(codec, s, t);
    assert TaskKeyed(past, s, t);
    var task' := TaskOf(Next(codec, s, e), t);
    if ConnOf(task').Some? {
      OpenedAfter(past, e, ConnOf(task').value);
      if e.Take? && e.task == t {
        var key := TaskOf(s, t).key;
        assert OpenedFor(past, s.pool[key][|s.pool[key]| - 1]) == Some(key);
      }
    }
  }

  lemma SlotAt(codec: Codec, s: Sys, key: Key, i: nat)
    requires SysInv(codec, s) && key in s.pool && i < |s.pool[key]|
    ensures SlotOk(s, key, i) && s.pool[key][i] in s.conns
  {
  }

  lemma SlotsStayKeyed(codec: Codec, past: seq<Event>, s: Sys, e: Event, key: Key, i: nat)
    requires SysInv(codec, s) && Keyed(past, s) && Can(codec, s, e)
    requires var pool' := Next(codec, s, e).pool; key in pool' && i < |pool'[key]|
    ensures OpenedFor(past + [e], Next(codec, s, e).pool[key][i]) == Some(key)
  {
    hide SysInv, Next, Framing.SelfDelimited, LastBegin, OpenedFor;
    NextPool(codec, s, e);
    var c := Next(codec, s, e).pool[key][i];
    OpenedAfter(past, e, c);
    if e.Finish? {
      assert TaskKeyed(past, s, e.task);
    }
    if key in s.pool && i < |s.pool[key]| {
      SlotAt(codec, s, key, i);
    }
  }

  lemma StepKeepsKeys(codec: Codec, past: seq<Event>, s: Sys, e: Event)
    requires SysInv(codec, s) && Keyed(past, s) && Can(codec, s, e)
    ensures Keyed(past + [e], Next(codec, s, e))
  {
    hide SysInv, Next, Can, OpenedFor, TaskKeyed;
    var s' := Next(codec, s, e);
    forall t: nat ensures TaskKeyed(past + [e], s', t) {
      TaskStaysKeyed(codec, past, s, e, t);
    }
    forall key, i: nat | key in s'.pool && i < |s'.pool[key]|
      ensures OpenedFor(past + [e], s'.pool[key][i]) == Some(key)
    {
      SlotsStayKeyed(codec, past, s, e, key, i);
    }
  }

  lemma {:induction false} RunKeepsKeys(codec: Codec, past: seq<Event>, s: Sys, events: seq<Event>)
    requires SysInv(codec, s) && Keyed(past, s) && IsSysRun(codec, s, events)
    ensures Keyed(past + events, SysAfter(codec, s, events))
    decreases |events|
  {
    hide SysInv, Next, Can, Keyed;
    if events == [] {
      assert past + events == past;
    } else {
      StepKeepsKeys(codec, past, s, events[0]);
      SysStepKeepsInv(codec, s, events[0]);
      RunKeepsKeys(codec, past + [events[0]], Next(codec, s, events[0]), events[1..]);
      assert past + [events[0]] + events[1..] == past + events;
    }
  }

  lemma EmptyKeyed()
    ensures Keyed([], EMPTY)
  {
  }

  /**
   * A connection only ever carries requests to the host and port it was opened for: in every state of every run, one
   * that is pooled under a key was opened by a task whose request was for that key, and so was one that a task holds,
   * whose own request is for that key.
   */
  lemma ConnectionsKeepTheirKey(codec: Codec, events: seq<Event>, key: Key, i: nat, t: nat)
    requires IsSysRun(codec, EMPTY, events)
    ensures var s := SysAfter(codec, EMPTY, events);
      && (key in s.pool && i < |s.pool[key]| ==> OpenedFor(events, s.pool[key][i]) == Some(key))
      && var c := ConnOf(TaskOf(s, t));
         c.Some? ==> LastBegin(events, t).Some? && OpenedFor(events, c.value) == LastBegin(events, t)
  {
    hide LastBegin, OpenedFor, Next, SysInv;
    EmptyInv(codec);
    EmptyKeyed();
    RunKeepsKeys(codec, [], EMPTY, events);
    assert [] + events == events;
    assert TaskKeyed(events, SysAfter(codec, EMPTY, events), t);
  }

  // Giving a connection back and taking it again.

  lemma {:induction false} RunConcat(codec: Codec, s: Sys, a: seq<Event>, b: seq<Event>)
    requires IsSysRun(codec, s, a + b)
    ensures IsSysRun(codec, s, a) && IsSysRun(codec, SysAfter(codec, s, a), b)
    ensures SysAfter(codec, s, a + b) == SysAfter(codec, SysAfter(codec, s, a), b)
    decreases |a|
  {
    hide Next, Can;
    if a == [] {
      assert a + b == b;
    } else {
      assert (a + b)[0] == a[0] && (a + b)[1..] == a[1..] + b;
      RunConcat(codec, Next(codec, s, a[0]), a[1..], b);
    }
  }

  /** An event that neither takes from the pool nor gives to it. */
  predicate LeavesPool(e: Event) {
    !e.Take? && !e.Finish? && !e.CloseClient?
  }

  lemma {:induction false} PoolStays(codec: Codec, s: Sys, events: seq<Event>)
    requires IsSysRun(codec, s, events) && forall e :: e in events ==> LeavesPool(e)
    ensures SysAfter(codec, s, events).pool == s.pool
    decreases |events|
  {
    hide Next, Can;
    if events == [] {
    } else {
      NextPool(codec, s, events[0]);
      assert LeavesPool(events[0]);
      PoolStays(codec, Next(codec, s, events[0]), events[1..]);
    }
  }

  lemma OneStep(codec: Codec, s: Sys, e: Event)
    requires IsSysRun(codec, s, [e])
    ensures Can(codec, s, e) && SysAfter(codec, s, [e]) == Next(codec, s, e)
  {
    hide Next, Can;
    assert [e][1..] == [];
    assert SysAfter(codec, Next(codec, s, e), []) == Next(codec, s, e);
  }

  /**
   * A connection whose response lets it be kept is the one that the next request for that host and port takes, if the
   * pool is left alone in between.
   */
  lemma KeptIsTakenNext(codec: Codec, events: seq<Event>, t: nat, between: seq<Event>, u: nat)
    requires var before := events + [Finish(t)] + between;
      IsSysRun(codec, EMPTY, before + [Take(u)]) && LastBegin(before, u) == LastBegin(events, t)
    requires forall e :: e in between ==> LeavesPool(e)
    requires IsSysRun(codec, EMPTY, events) && TaskOf(SysAfter(codec, EMPTY, events), t).Concluding?
    requires TaskOf(SysAfter(codec, EMPTY, events), t).keep
    ensures var before := events + [Finish(t)] + between;
      var task := TaskOf(SysAfter(codec, EMPTY, before + [Take(u)]), u);
      task.Holding? && task.reused && task.conn == TaskOf(SysAfter(codec, EMPTY, events), t).conn
  {
    hide Next, LastBegin, OpenedFor, Can;
    var before := events + [Finish(t)] + between;
    RunConcat(codec, EMPTY, before, [Take(u)]);
    RunConcat(codec, EMPTY, events + [Finish(t)], between);
    RunConcat(codec, EMPTY, events, [Finish(t)]);
    var s0 := SysAfter(codec, EMPTY, events);
    var s1 := SysAfter(codec, EMPTY, events + [Finish(t)]);
    var s2 := SysAfter(codec, EMPTY, before);
    OneStep(codec, s0, Finish(t));
    OneStep(codec, s2, Take(u));
    NextPool(codec, s0, Finish(t));
    PoolStays(codec, s1, between);
    KeysOf(codec, events, t);
    KeysOf(codec, before, u);
    TakeCan(codec, s2, u);
    NextTask(codec, s2, Take(u), u);
  }

  lemma TakeCan(codec: Codec, s: Sys, u: nat)
    requires Can(codec, s, Take(u))
    ensures TaskOf(s, u).Picking?
  {
  }

  lemma KeysOf(codec: Codec, events: seq<Event>, t: nat)
    requires IsSysRun(codec, EMPTY, events)
    ensures var task := TaskOf(SysAfter(codec, EMPTY, events), t);
      !task.Idle? ==> LastBegin(events, t) == Some(task.key)
  {
    hide LastBegin, OpenedFor, Next, SysInv;
    EmptyInv(codec);
    EmptyKeyed();
    RunKeepsKeys(codec, [], EMPTY, events);
    assert [] + events == events;
    assert TaskKeyed(events, SysAfter(codec, EMPTY, events), t);
  }

  // Closing.

  /**
   * An exchange that ends with a response either pools its connection, open, or closes it; and a connection given up
   * as stale is closed, and its request goes on to a new one for the same key.
   */
  lemma KeptOrClosed(codec: Codec, events: seq<Event>, e: Event)
    requires IsSysRun(codec, EMPTY, events + [e]) && (e.Finish? || e.Retire?)
    ensures IsSysRun(codec, EMPTY, events)
    ensures var s, s' := SysAfter(codec, EMPTY, events), SysAfter(codec, EMPTY, events + [e]);
      var task := TaskOf(s, e.task);
      match e
      case Finish(t) =>
        && task.Concluding? && TaskOf(s', t).Idle?
        && (task.keep ==> task.key in s'.pool && s'.pool[task.key] != []
                          && s'.pool[task.key][|s'.pool[task.key]| - 1] == task.conn && !WireOf(s', task.conn).closed)
        && (!task.keep ==> WireOf(s', task.conn).closed && s'.pool == s.pool)
      case Retire(t) => task.Retiring? && WireOf(s', task.conn).closed && TaskOf(s', t) == Connecting(task.key)
      case _ => true
  {
    hide SysInv, Framing.SelfDelimited, ParserSpec.Feed, ParserSpec.FeedEof, Reusable;
    RunConcat(codec, EMPTY, events, [e]);
    var s := SysAfter(codec, EMPTY, events);
    OneStep(codec, s, e);
    EmptyInv(codec);
    SysRunsKeepInv(codec, EMPTY, events);
    HolderAt(codec, s, e.task);
    NextPool(codec, s, e);
  }

  /** Closing the client empties the pool, and every connection that was in it is closed in its turn. */
  lemma CloseClosesAll(codec: Codec, events: seq<Event>, c: nat)
    requires IsSysRun(codec, EMPTY, events + [CloseClient])
    ensures IsSysRun(codec, EMPTY, events)
    ensures var s, s' := SysAfter(codec, EMPTY, events), SysAfter(codec, EMPTY, events + [CloseClient]);
      && s'.pool == map[]
      && (c in Pooled(s.pool) ==>
            && Can(codec, s', CloseOne(c))
            && WireOf(Next(codec, s', CloseOne(c)), c).closed)
  {
    hide SysInv, Framing.SelfDelimited, ParserSpec.Feed, ParserSpec.FeedEof, Reusable;
    RunConcat(codec, EMPTY, events, [CloseClient]);
    OneStep(codec, SysAfter(codec, EMPTY, events), CloseClient);
  }

  // Which connections are kept.

  /** The response that the latest exchange on connection `c` returned. */
  function LastResponse(log: seq<Exchanged>, c: nat): Option<Response> {
    if log == [] then None
    else if log[|log| - 1].conn == c then Some(log[|log| - 1].response)
    else LastResponse(log[..|log| - 1], c)
  }

  /** A response that lets its connection be kept, however it was framed. */
  predicate AllowsReuse(response: Response) {
    Reusable(false, response)
  }

  ghost predicate KeptRightly(s: Sys) {
    && (forall t: nat :: TaskOf(s, t).Concluding? && TaskOf(s, t).keep ==> AllowsReuse(TaskOf(s, t).response))
    && (forall key, i: nat :: key in s.pool && i < |s.pool[key]| ==>
          LastResponse(s.log, s.pool[key][i]).Some? && AllowsReuse(LastResponse(s.log, s.pool[key][i]).value))
  }

  lemma CallbackConcluding(codec: Codec, s: Sys, e: Event, t: nat)
    requires Can(codec, s, e) && (e.Chunk? || e.Eof? || e.ReadFailed? || e.WriteFailed?)
    ensures var task, task' := TaskOf(s, t), TaskOf(Next(codec, s, e), t);
      task'.Concluding? && task'.keep ==> task' == task || AllowsReuse(task'.response)
  {
    hide ParserSpec.Feed, ParserSpec.FeedEof, Framing.SelfDelimited, Get, Contains;
  }

  lemma NextConcluding(codec: Codec, s: Sys, e: Event, t: nat)
    requires Can(codec, s, e)
    ensures var task, task' := TaskOf(s, t), TaskOf(Next(codec, s, e), t);
      task'.Concluding? && task'.keep ==> task' == task || AllowsReuse(task'.response)
  {
    hide ParserSpec.Feed, ParserSpec.FeedEof, Framing.SelfDelimited, Get, Contains, AfterParse, GiveUp;
    if e.Chunk? || e.Eof? || e.ReadFailed? || e.WriteFailed? {
      CallbackConcluding(codec, s, e, t);
    }
  }

  lemma NextLog(codec: Codec, s: Sys, e: Event)
    requires Can(codec, s, e)
    ensures var log, log' := s.log, Next(codec, s, e).log;
      match e
      case Finish(t) =>
        |log'| == |log| + 1 && log'[..|log|] == log && log'[|log|].conn == TaskOf(s, t).conn
        && log'[|log|].response == TaskOf(s, t).response
      case _ => log' == log
  {
    hide ParserSpec.Feed, ParserSpec.FeedEof, Reusable, Framing.SelfDelimited;
  }

  lemma StepKeepsRightly(codec: Codec, s: Sys, e: Event)
    requires SysInv(codec, s) && KeptRightly(s) && Can(codec, s, e)
    ensures KeptRightly(Next(codec, s, e))
  {
    hide SysInv, Next, Framing.SelfDelimited, AllowsReuse;
    var s' := Next(codec, s, e);
    NextPool(codec, s, e);
    NextLog(codec, s, e);
    forall t: nat | TaskOf(s', t).Concluding? && TaskOf(s', t).keep ensures AllowsReuse(TaskOf(s', t).response) {
      NextConcluding(codec, s, e, t);
    }
    forall key, i: nat | key in s'.pool && i < |s'.pool[key]|
      ensures LastResponse(s'.log, s'.pool[key][i]).Some? && AllowsReuse(LastResponse(s'.log, s'.pool[key][i]).value)
    {
      if e.Finish? {
        HolderAt(codec, s, e.task);
      }
      if key in s.pool && i < |s.pool[key]| {
        SlotAt(codec, s, key, i);
      }
    }
  }

  lemma {:induction false} RunKeepsRightly(codec: Codec, s: Sys, events: seq<Event>)
    requires SysInv(codec, s) && KeptRightly(s) && IsSysRun(codec, s, events)
    ensures KeptRightly(SysAfter(codec, s, events))
    decreases |events|
  {
    hide SysInv, Next, Can, KeptRightly;
    if events == [] {
    } else {
      StepKeepsRightly(codec, s, events[0]);
      SysStepKeepsInv(codec, s, events[0]);
      RunKeepsRightly(codec, Next(codec, s, events[0]), events[1..]);
    }
  }

  /** In every state of every run, the latest response on a pooled connection was one that lets it be kept. */
  lemma PooledWereReusable(codec: Codec, events: seq<Event>, key: Key, i: nat)
    requires IsSysRun(codec, EMPTY, events)
    requires var s := SysAfter(codec, EMPTY, events); key in s.pool && i < |s.pool[key]|
    ensures var s := SysAfter(codec, EMPTY, events); var response := LastResponse(s.log, s.pool[key][i]);
      response.Some? && Reusable(false, response.value)
  {
    hide Next, SysInv;
    EmptyInv(codec);
    assert KeptRightly(EMPTY);
    RunKeepsRightly(codec, EMPTY, events);
  }

  // Where a task's connection comes from.

  datatype Source = Nowhere | FromPool | Opened

  function Sources(before: Source, e: Event, t: nat): Source {
    match e
    case Begin(u, _) => if u == t then Nowhere else before
    case Take(u) => if u == t then FromPool else before
    case Connected(u, _) => if u == t then Opened else before
    case _ => before
  }

  /** What task `t` did last for its request: began it, asked the pool, or opened a connection. */
  function LastSource(events: seq<Event>, t: nat): Source {
    if events == [] then Nowhere
    else Sources(LastSource(events[..|events| - 1], t), events[|events| - 1], t)
  }

  predicate Sourced(task: Task, source: Source) {
    match task
    case Idle => true
    case Picking(_) => source == Nowhere
    case Connecting(_) => source == FromPool
    case Holding(_, _, reused) => source == if reused then FromPool else Opened
    case Sending(_, _, reused, _) => source == if reused then FromPool else Opened
    case Receiving(_, _, reused, _, _, _, _) => source == if reused then FromPool else Opened
    case Retiring(_, _) => source == FromPool
    case Concluding(_, _, _, _, _, _, _) => source != Nowhere
  }

  lemma CallbackSourced(codec: Codec, s: Sys, e: Event, t: nat, source: Source)
    requires Can(codec, s, e) && (e.Chunk? || e.Eof? || e.ReadFailed? || e.WriteFailed?)
    requires Sourced(TaskOf(s, t), source)
    ensures Sourced(TaskOf(Next(codec, s, e), t), Sources(source, e, t))
  {
    hide ParserSpec.Feed, ParserSpec.FeedEof, Reusable, Framing.SelfDelimited;
  }

  lemma OtherSourced(codec: Codec, s: Sys, e: Event, t: nat, source: Source)
    requires Can(codec, s, e) && !(e.Chunk? || e.Eof? || e.ReadFailed? || e.WriteFailed?)
    requires Sourced(TaskOf(s, t), source)
    ensures Sourced(TaskOf(Next(codec, s, e), t), Sources(source, e, t))
  {
    hide ParserSpec.Feed, ParserSpec.FeedEof, Reusable, Framing.SelfDelimited, GiveUp, AfterParse;
  }

  lemma StepSourced(codec: Codec, past: seq<Event>, s: Sys, e: Event, t: nat)
    requires Can(codec, s, e) && Sourced(TaskOf(s, t), LastSource(past, t))
    ensures Sourced(TaskOf(Next(codec, s, e), t), LastSource(past + [e], t))
  {
    hide Next, Can, Sourced, Sources;
    assert (past + [e])[..|past|] == past;
    if e.Chunk? || e.Eof? || e.ReadFailed? || e.WriteFailed? {
      CallbackSourced(codec, s, e, t, LastSource(past, t));
    } else {
      OtherSourced(codec, s, e, t, LastSource(past, t));
    }
  }

  lemma {:induction false} RunSourced(codec: Codec, past: seq<Event>, s: Sys, events: seq<Event>, t: nat)
    requires IsSysRun(codec, s, events) && Sourced(TaskOf(s, t), LastSource(past, t))
    ensures Sourced(TaskOf(SysAfter(codec, s, events), t), LastSource(past + events, t))
    decreases |events|
  {
    hide Next, Can, Sourced, LastSource;
    if events == [] {
      assert past + events == past;
    } else {
      StepSourced(codec, past, s, events[0], t);
      RunSourced(codec, past + [events[0]], Next(codec, s, events[0]), events[1..], t);
      assert past + [events[0]] + events[1..] == past + events;
    }
  }

  /**
   * A request asks the pool before it opens a connection, and an exchange may give its connection up as stale exactly
   * if that came from the pool: a new one is only opened when the pool had none for the key, or the pooled one was
   * stale.
   */
  lemma PoolIsAskedFirst(codec: Codec, events: seq<Event>, t: nat)
    requires IsSysRun(codec, EMPTY, events)
    ensures Sourced(TaskOf(SysAfter(codec, EMPTY, events), t), LastSource(events, t))
    ensures IsSysRun(codec, EMPTY, events + [Take(t)]) ==>
      var pool, key := SysAfter(codec, EMPTY, events).pool, LastBegin(events, t);
      && key.Some?
      && TaskOf(SysAfter(codec, EMPTY, events + [Take(t)]), t)
         == if key.value in pool && pool[key.value] != []
            then Holding(key.value, pool[key.value][|pool[key.value]| - 1], true)
            else Connecting(key.value)
  {
    hide Next, Can, Sourced, LastSource, LastBegin;
    assert Sourced(TaskOf(EMPTY, t), LastSource([], t)) by {
      NoneSourced(t);
    }
    RunSourced(codec, [], EMPTY, events, t);
    assert [] + events == events;
    if IsSysRun(codec, EMPTY, events + [Take(t)]) {
      RunConcat(codec, EMPTY, events, [Take(t)]);
      var s := SysAfter(codec, EMPTY, events);
      OneStep(codec, s, Take(t));
      TakeCan(codec, s, t);
      KeysOf(codec, events, t);
      NextTask(codec, s, Take(t), t);
    }
  }

  lemma NoneSourced(t: nat)
    ensures Sourced(TaskOf(EMPTY, t), LastSource([], t))
  {
  }

  // That requests are served at all.

  lemma Asks(codec: Codec, s: Sys, t: nat, key: Key, c: nat)
    requires TaskOf(s, t).Idle? && (key !in s.pool || s.pool[key] == []) && c !in s.conns && c !in s.place
    ensures IsSysRun(codec, s, [Begin(t, key), Take(t), Connected(t, c)])
    ensures var s' := SysAfter(codec, s, [Begin(t, key), Take(t), Connected(t, c)]);
      && TaskOf(s', t) == Holding(key, c, false) && WireOf(s', c) == Wire([], [], false, false, false, false)
      && s'.pool == s.pool && s'.log == s.log
  {
    var s1 := Next(codec, s, Begin(t, key));
    var s2 := Next(codec, s1, Take(t));
    RunOfThree(codec, s, Begin(t, key), Take(t), Connected(t, c));
  }

  lemma RunOfThree(codec: Codec, s: Sys, a: Event, b: Event, c: Event)
    requires Can(codec, s, a) && Can(codec, Next(codec, s, a), b)
    requires Can(codec, Next(codec, Next(codec, s, a), b), c)
    ensures IsSysRun(codec, s, [a, b, c])
    ensures SysAfter(codec, s, [a, b, c]) == Next(codec, Next(codec, Next(codec, s, a), b), c)
  {
    hide Next, Can;
    assert [a, b, c][1..] == [b, c] && [b, c][1..] == [c] && [c][1..] == [];
    var s3 := Next(codec, Next(codec, Next(codec, s, a), b), c);
    assert IsSysRun(codec, s3, []) && SysAfter(codec, s3, []) == s3;
    assert IsSysRun(codec, Next(codec, Next(codec, s, a), b), [c]);
    assert SysAfter(codec, Next(codec, Next(codec, s, a), b), [c]) == s3;
    assert IsSysRun(codec, Next(codec, s, a), [b, c]);
    assert SysAfter(codec, Next(codec, s, a), [b, c]) == s3;
  }

  lemma Sends(codec: Codec, s: Sys, t: nat, answer: Bytes)
    requires TaskOf(s, t).Holding? && Framing.SelfDelimited(codec, answer)
    requires var w := WireOf(s, TaskOf(s, t).conn); w.pending == [] && !w.peerClosed
    ensures IsSysRun(codec, s, [Submit(t, answer), WriteDone(t), Read(t)])
    ensures var task, s' := TaskOf(s, t), SysAfter(codec, s, [Submit(t, answer), WriteDone(t), Read(t)]);
      && TaskOf(s', t) == Receiving(task.key, task.conn, task.reused, answer, [], ParserSpec.INIT, true)
      && WireOf(s', task.conn).pending == answer && WireOf(s', task.conn).delivers == answer
      && !WireOf(s', task.conn).peerClosed && s'.pool == s.pool && s'.log == s.log
  {
    hide Framing.SelfDelimited;
    assert [] + answer == answer;
    RunOfThree(codec, s, Submit(t, answer), WriteDone(t), Read(t));
  }

  lemma Answered(codec: Codec, s: Sys, t: nat, answer: Bytes)
    requires var task := TaskOf(s, t);
      && task.Receiving? && task.waiting && task.parser == ParserSpec.INIT && task.own == answer && task.got == []
      && WireOf(s, task.conn).pending == answer && WireOf(s, task.conn).delivers == answer
      && !WireOf(s, task.conn).peerClosed
    requires Framing.SelfDelimited(codec, answer)
    ensures IsSysRun(codec, s, [Chunk(t, answer), Finish(t)])
    ensures ParserSpec.Feed(codec, ParserSpec.INIT, answer).state.response.Some?
    ensures var task, s' := TaskOf(s, t), SysAfter(codec, s, [Chunk(t, answer), Finish(t)]);
      var p := ParserSpec.Feed(codec, ParserSpec.INIT, answer).state;
      && TaskOf(s', t).Idle?
      && s'.log == s.log + [Exchanged(t, task.conn, answer, answer, false, p.response.value, answer, false)]
      && s'.pool == if Reusable(p.untilClose, p.response.value) then GiveTo(s.pool, task.key, task.conn) else s.pool
  {
    hide ParserSpec.Parse, Reusable;
    InitFed(codec);
    FeedFramed(codec, answer);
    assert [] + answer == answer;
    var s1 := Next(codec, s, Chunk(t, answer));
    var s2 := Next(codec, s1, Finish(t));
    assert [Chunk(t, answer), Finish(t)][1..] == [Finish(t)] && [Finish(t)][1..] == [];
    assert IsSysRun(codec, s2, []) && SysAfter(codec, s2, []) == s2;
    assert IsSysRun(codec, s1, [Finish(t)]);
  }

  /**
   * In every state, a request for a key with nothing pooled can be made on a new connection, and if the peer answers it
   * whole it ends with the response its answer parses to; the connection is then pooled if it may be kept.
   */
  lemma ServedOnNew(codec: Codec, s: Sys, t: nat, key: Key, c: nat, answer: Bytes)
    requires TaskOf(s, t).Idle? && (key !in s.pool || s.pool[key] == []) && c !in s.conns && c !in s.place
    requires Framing.SelfDelimited(codec, answer)
    ensures ParserSpec.Feed(codec, ParserSpec.INIT, answer).state.response.Some?
    ensures var steps := [Begin(t, key), Take(t), Connected(t, c)] + [Submit(t, answer), WriteDone(t), Read(t)]
                         + [Chunk(t, answer), Finish(t)];
      && IsSysRun(codec, s, steps)
      && var s', p := SysAfter(codec, s, steps), ParserSpec.Feed(codec, ParserSpec.INIT, answer).state;
         && s'.log == s.log + [Exchanged(t, c, answer, answer, false, p.response.value, answer, false)]
         && s'.pool == if Reusable(p.untilClose, p.response.value) then s.pool[key := [c]] else s.pool
  {
    hide Next, Can, ParserSpec.Feed, Framing.SelfDelimited, Reusable;
    var asks, sends := [Begin(t, key), Take(t), Connected(t, c)], [Submit(t, answer), WriteDone(t), Read(t)];
    Asks(codec, s, t, key, c);
    var s1 := SysAfter(codec, s, asks);
    Sends(codec, s1, t, answer);
    var s2 := SysAfter(codec, s1, sends);
    Answered(codec, s2, t, answer);
    JoinRuns(codec, s1, sends, [Chunk(t, answer), Finish(t)]);
    JoinRuns(codec, s, asks, sends + [Chunk(t, answer), Finish(t)]);
    assert asks + sends + [Chunk(t, answer), Finish(t)] == asks + (sends + [Chunk(t, answer), Finish(t)]);
    assert [] + [c] == [c];
  }

  lemma {:induction false} JoinRuns(codec: Codec, s: Sys, a: seq<Event>, b: seq<Event>)
    requires IsSysRun(codec, s, a) && IsSysRun(codec, SysAfter(codec, s, a), b)
    ensures IsSysRun(codec, s, a + b) && SysAfter(codec, s, a + b) == SysAfter(codec, SysAfter(codec, s, a), b)
    decreases |a|
  {
    hide Next, Can;
    if a == [] {
      assert a + b == b;
    } else {
      assert (a + b)[0] == a[0] && (a + b)[1..] == a[1..] + b;
      JoinRuns(codec, Next(codec, s, a[0]), a[1..], b);
    }
  }

  // How often a request is sent.

  /** The writes a task may still submit for its request. */
  function WritesLeft(task: Task): nat {
    match task
    case Picking(_) => 2
    case Connecting(_) => 1
    case Holding(_, _, reused) => if reused then 2 else 1
    case Sending(_, _, reused, _) => if reused then 1 else 0
    case Receiving(_, _, reused, _, _, _, _) => if reused then 1 else 0
    case Retiring(_, _) => 1
    case _ => 0
  }

  /** The connections it may still open. */
  function ConnectsLeft(task: Task): nat {
    match task
    case Picking(_) => 1
    case Connecting(_) => 1
    case Holding(_, _, reused) => if reused then 1 else 0
    case Sending(_, _, reused, _) => if reused then 1 else 0
    case Receiving(_, _, reused, _, _, _, _) => if reused then 1 else 0
    case Retiring(_, _) => 1
    case _ => 0
  }

  function Submits(events: seq<Event>, t: nat): nat {
    if events == [] then 0 else (if events[0].Submit? && events[0].task == t then 1 else 0) + Submits(events[1..], t)
  }

  function Connects(events: seq<Event>, t: nat): nat {
    if events == [] then 0
    else (if events[0].Connected? && events[0].task == t then 1 else 0) + Connects(events[1..], t)
  }

  predicate Spends(task: Task, e: Event, t: nat, task': Task) {
    && WritesLeft(task') + (if e.Submit? && e.task == t then 1 else 0) <= WritesLeft(task)
    && ConnectsLeft(task') + (if e.Connected? && e.task == t then 1 else 0) <= ConnectsLeft(task)
    && ((e.ConnectFailed? || e.Cancel?) && e.task == t ==> task'.Idle?)
  }

  lemma CallbackSpends(codec: Codec, s: Sys, e: Event, t: nat)
    requires Can(codec, s, e) && (e.Chunk? || e.Eof? || e.ReadFailed? || e.WriteFailed?)
    ensures Spends(TaskOf(s, t), e, t, TaskOf(Next(codec, s, e), t))
  {
    hide ParserSpec.Feed, ParserSpec.FeedEof, Reusable, Framing.SelfDelimited;
  }

  lemma OtherSpends(codec: Codec, s: Sys, e: Event, t: nat)
    requires Can(codec, s, e) && !(e.Begin? && e.task == t)
    requires !(e.Chunk? || e.Eof? || e.ReadFailed? || e.WriteFailed?)
    ensures Spends(TaskOf(s, t), e, t, TaskOf(Next(codec, s, e), t))
  {
    hide ParserSpec.Feed, ParserSpec.FeedEof, Reusable, Framing.SelfDelimited, GiveUp, AfterParse;
  }

  lemma StepSpends(codec: Codec, s: Sys, e: Event, t: nat)
    requires Can(codec, s, e) && !(e.Begin? && e.task == t)
    ensures Spends(TaskOf(s, t), e, t, TaskOf(Next(codec, s, e), t))
  {
    hide Next, Can, Spends;
    if e.Chunk? || e.Eof? || e.ReadFailed? || e.WriteFailed? {
      CallbackSpends(codec, s, e, t);
    } else {
      OtherSpends(codec, s, e, t);
    }
  }

  lemma {:induction false} RunSpends(codec: Codec, s: Sys, events: seq<Event>, t: nat)
    requires IsSysRun(codec, s, events) && forall e :: e in events ==> !(e.Begin? && e.task == t)
    ensures Submits(events, t) <= WritesLeft(TaskOf(s, t)) && Connects(events, t) <= ConnectsLeft(TaskOf(s, t))
    decreases |events|
  {
    hide Next, Can, WritesLeft, ConnectsLeft;
    if events == [] {
    } else {
      assert !(events[0].Begin? && events[0].task == t);
      StepSpends(codec, s, events[0], t);
      RunSpends(codec, Next(codec, s, events[0]), events[1..], t);
    }
  }

  /** Among any number of tasks, a request is written at most twice and opens at most one connection. */
  lemma TwoWritesAtMost(codec: Codec, s: Sys, t: nat, key: Key, events: seq<Event>)
    requires IsSysRun(codec, s, [Begin(t, key)] + events) && forall e :: e in events ==> !(e.Begin? && e.task == t)
    ensures Submits(events, t) <= 2 && Connects(events, t) <= 1
  {
    assert ([Begin(t, key)] + events)[0] == Begin(t, key) && ([Begin(t, key)] + events)[1..] == events;
    RunSpends(codec, Next(codec, s, Begin(t, key)), events, t);
  }

  /** After a failed connect or a cancellation the request is not sent again, and opens nothing. */
  lemma StoppedSendsNothing(codec: Codec, s: Sys, stop: Event, events: seq<Event>)
    requires (stop.ConnectFailed? || stop.Cancel?) && IsSysRun(codec, s, [stop] + events)
    requires forall e :: e in events ==> !(e.Begin? && e.task == stop.task)
    ensures Submits(events, stop.task) == 0 && Connects(events, stop.task) == 0
  {
    hide Next, Can;
    assert ([stop] + events)[0] == stop && ([stop] + events)[1..] == events;
    StepSpends(codec, s, stop, stop.task);
    RunSpends(codec, Next(codec, s, stop), events, stop.task);
  }
}
