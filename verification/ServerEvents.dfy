/**
 The event stream of the ready-made server (src/server.rs): one accept loop and one task per
 client, all sending into one channel. A step is one event sent, or one task spawned; any
 interleaving is possible.
 */
module ServerEvents {
  import opened Basics
  import Frames
  import Reader

  datatype Event =
    | NewClient(id: nat)
    | NewMessage(id: nat, message: Frames.Message)
    | Disconnect(id: nat)
    | Failure(id: nat, error: Error)

  type UserItems = seq<Result<Frames.Message>>

  /** A client's task: what its reader will still yield, and whether an error has ended the loop. */
  datatype Task = Task(items: UserItems, failed: bool)

  datatype Acceptor = Idle | Announced(id: nat, items: UserItems)

  /** `clients` records, for every client announced so far, all that its reader yields. */
  datatype Server = Server(log: seq<Event>, acceptor: Acceptor, tasks: map<nat, Task>,
                           used: set<nat>, clients: map<nat, UserItems>)

  const INITIAL := Server([], Idle, map[], {}, map[])

  datatype Move =
    | SetupFails(id: nat, error: Error)
    | Announce(id: nat, items: UserItems)
    | Spawn
    | TaskTurn(id: nat)

  /** When a move is possible; ids are fresh. */
  predicate Enabled(s: Server, m: Move) {
    match m
    case SetupFails(id, _) => s.acceptor.Idle? && id !in s.used
    case Announce(id, _) => s.acceptor.Idle? && id !in s.used
    case Spawn => s.acceptor.Announced?
    case TaskTurn(id) => id in s.tasks
  }

  function Next(s: Server, m: Move): Server
    requires Enabled(s, m)
  {
    match m
    case SetupFails(id, e) => s.(log := s.log + [Failure(id, e)], used := s.used + {id})
    case Announce(id, items) =>
      s.(log := s.log + [NewClient(id)], used := s.used + {id}, acceptor := Announced(id, items),
         clients := s.clients[id := items])
    case Spawn =>
      s.(acceptor := Idle, tasks := s.tasks[s.acceptor.id := Task(s.acceptor.items, false)])
    case TaskTurn(id) =>
      var t := s.tasks[id];
      if t.failed || t.items == [] then s.(log := s.log + [Disconnect(id)], tasks := s.tasks - {id})
      else
        match t.items[0]
        case Ok(m) =>
          s.(log := s.log + [NewMessage(id, m)], tasks := s.tasks[id := Task(t.items[1..], false)])
        case Err(e) =>
          s.(log := s.log + [Failure(id, e)], tasks := s.tasks[id := Task(t.items[1..], true)])
  }

  /** The state after the moves, or None if one of them was not possible. */
  function After(moves: seq<Move>): Option<Server>
    decreases |moves|
  {
    if moves == [] then Some(INITIAL)
    else
      var n := |moves| - 1;
      match After(moves[..n])
      case None => None
      case Some(s) => if Enabled(s, moves[n]) then Some(Next(s, moves[n])) else None
  }

  // ---------------------------------------------------------------- what the log may say

  /** The events that concern one client. */
  function Project(log: seq<Event>, id: nat): seq<Event>
    decreases |log|
  {
    if log == [] then []
    else
      var n := |log| - 1;
      Project(log[..n], id) + if log[n].id == id then [log[n]] else []
  }

  /** The messages up to the first error, and the error. */
  function Told(id: nat, items: UserItems): seq<Event>
    decreases |items|
  {
    if items == [] then []
    else
      match items[0]
      case Ok(m) => [NewMessage(id, m)] + Told(id, items[1..])
      case Err(e) => [Failure(id, e)]
  }

  /** The whole story of a client. */
  function Story(id: nat, items: UserItems): seq<Event> {
    [NewClient(id)] + Told(id, items) + [Disconnect(id)]
  }

  /** What is still to come for an announced client. */
  function Rest(s: Server, id: nat): seq<Event> {
    if s.acceptor.Announced? && s.acceptor.id == id then Told(id, s.acceptor.items) + [Disconnect(id)]
    else if id in s.tasks then (if s.tasks[id].failed then [] else Told(id, s.tasks[id].items)) + [Disconnect(id)]
    else []
  }

  /**
   Each client's events so far, and those to come, make up its story; an id without a client has at
   most a failure.
   */
  ghost predicate Inv(s: Server) {
    && s.clients.Keys <= s.used && s.tasks.Keys <= s.clients.Keys
    && (s.acceptor.Announced? ==> s.acceptor.id in s.clients && s.acceptor.id !in s.tasks)
    && (forall id | id in s.clients :: Project(s.log, id) + Rest(s, id) == Story(id, s.clients[id]))
    && (forall id | id in s.used && id !in s.clients :: |Project(s.log, id)| == 1 && Project(s.log, id)[0].Failure?)
    && (forall id: nat | id !in s.used :: Project(s.log, id) == [])
  }

  lemma ProjectSnoc(log: seq<Event>, e: Event, id: nat)
    ensures Project(log + [e], id) == Project(log, id) + if e.id == id then [e] else []
  {
    assert (log + [e])[..|log|] == log;
  }

  lemma ProjectAll(log: seq<Event>, e: Event)
    ensures forall id: nat :: Project(log + [e], id) == if e.id == id then Project(log, id) + [e] else Project(log, id)
  {
    forall id: nat ensures Project(log + [e], id) == if e.id == id then Project(log, id) + [e] else Project(log, id) {
      ProjectSnoc(log, e, id);
      assert Project(log, id) + [] == Project(log, id);
    }
  }

  lemma SetupFailsKeepsInv(s: Server, id: nat, e: Error)
    requires Inv(s) && s.acceptor.Idle? && id !in s.used
    ensures Inv(Next(s, SetupFails(id, e)))
  {
    hide Project, Told, Story, Enabled;
    ProjectAll(s.log, Failure(id, e));
    assert [] + [Failure(id, e)] == [Failure(id, e)];
  }

  lemma AnnounceKeepsInv(s: Server, id: nat, items: UserItems)
    requires Inv(s) && s.acceptor.Idle? && id !in s.used
    ensures Inv(Next(s, Announce(id, items)))
  {
    hide Project, Told;
    ProjectAll(s.log, NewClient(id));
    var s' := Next(s, Announce(id, items));
    assert Project(s'.log, id) + Rest(s', id) == Story(id, items) by {
      assert [] + [NewClient(id)] == [NewClient(id)];
      assert [NewClient(id)] + (Told(id, items) + [Disconnect(id)]) == Story(id, items);
    }
    hide Story;
  }

  lemma SpawnKeepsInv(s: Server)
    requires Inv(s) && s.acceptor.Announced?
    ensures Inv(Next(s, Spawn))
  {
    hide Project, Told, Story, Enabled;
  }

  lemma AcceptorKeepsInv(s: Server, m: Move)
    requires Inv(s) && Enabled(s, m) && !m.TaskTurn?
    ensures Inv(Next(s, m))
  {
    hide Inv, Next;
    match m
    case SetupFails(id, e) => SetupFailsKeepsInv(s, id, e);
    case Announce(id, items) => AnnounceKeepsInv(s, id, items);
    case Spawn => SpawnKeepsInv(s);
  }

  /** A task's turn sends the next event of its story, and touches no other client. */
  lemma TurnSendsNext(s: Server, id: nat) returns (e: Event)
    requires id in s.tasks && (s.acceptor.Announced? ==> s.acceptor.id !in s.tasks)
    ensures var s' := Next(s, TaskTurn(id));
      && s'.log == s.log + [e] && e.id == id && Rest(s, id) == [e] + Rest(s', id)
      && s'.tasks.Keys <= s.tasks.Keys && s'.acceptor == s.acceptor && s'.used == s.used && s'.clients == s.clients
      && forall i: nat | i != id :: Rest(s', i) == Rest(s, i)
  {
    var t, s' := s.tasks[id], Next(s, TaskTurn(id));
    e := s'.log[|s.log|];
    if t.failed || t.items == [] {
      assert Rest(s, id) == [Disconnect(id)];
    } else {
      assert Rest(s, id) == Told(id, t.items) + [Disconnect(id)];
    }
  }

  lemma TaskKeepsInv(s: Server, id: nat)
    requires Inv(s) && id in s.tasks
    ensures Inv(Next(s, TaskTurn(id)))
  {
    hide Project, Next, Rest, Story, Told;
    var s' := Next(s, TaskTurn(id));
    var e := TurnSendsNext(s, id);
    ProjectAll(s.log, e);
    forall i | i in s'.clients ensures Project(s'.log, i) + Rest(s', i) == Story(i, s'.clients[i]) {
      if i == id {
        assert Project(s.log, id) + ([e] + Rest(s', id)) == Project(s.log, id) + [e] + Rest(s', id);
      }
    }
  }

  /**
   The event language: under every interleaving, the events of a client are a prefix of its story:
   NewClient, its reader's messages in order up to the first error, that error, and Disconnect;
   complete exactly when its task has ended. An id without a client has a single failure.
   */
  lemma {:induction false} EventLanguage(moves: seq<Move>)
    requires After(moves).Some?
    ensures var s := After(moves).value;
      && Inv(s)
      && (forall id | id in s.clients :: Project(s.log, id) <= Story(id, s.clients[id]))
      && (forall id | id in s.clients ::
            Project(s.log, id) == Story(id, s.clients[id])
            <==> id !in s.tasks && !(s.acceptor.Announced? && s.acceptor.id == id))
    decreases |moves|
  {
    hide Next, Enabled, Inv, Project, Story, Rest;
    if moves == [] {
      InitialInv();
    } else {
      var n := |moves| - 1;
      EventLanguage(moves[..n]);
      var s, m := After(moves[..n]).value, moves[n];
      if m.TaskTurn? { TurnEnabled(s, m); TaskKeepsInv(s, m.id); } else { AcceptorKeepsInv(s, m); }
    }
    InvSays(After(moves).value);
  }

  lemma TurnEnabled(s: Server, m: Move)
    requires Enabled(s, m) && m.TaskTurn?
    ensures m.id in s.tasks && m == TaskTurn(m.id)
  {
  }

  lemma InitialInv()
    ensures Inv(INITIAL)
  {
  }

  lemma InvSays(s: Server)
    requires Inv(s)
    ensures forall id | id in s.clients :: Project(s.log, id) <= Story(id, s.clients[id])
    ensures forall id | id in s.clients ::
      Project(s.log, id) == Story(id, s.clients[id])
      <==> id !in s.tasks && !(s.acceptor.Announced? && s.acceptor.id == id)
  {
    hide Project, Told;
    forall id | id in s.clients
      ensures Project(s.log, id) <= Story(id, s.clients[id])
      ensures Project(s.log, id) == Story(id, s.clients[id]) <==> |Rest(s, id)| == 0
    {
      var p, r := Project(s.log, id), Rest(s, id);
      assert p + r == Story(id, s.clients[id]);
      if r == [] { assert p + r == p; }
    }
  }

  /** The story of a client whose reader ran as t says. */
  lemma StoryOfReader(id: nat, t: Reader.Trace)
    ensures Story(id, Reader.UserStream(t)) ==
            [NewClient(id)] + seq(|t.delivered|, i requires 0 <= i < |t.delivered| => NewMessage(id, t.delivered[i]))
            + (if t.status.Failed? then [Failure(id, t.status.error)] else []) + [Disconnect(id)]
  {
    ToldMessages(id, t.delivered, if t.status.Failed? then [Err(t.status.error)] else []);
  }

  lemma {:induction false} ToldMessages(id: nat, ms: seq<Frames.Message>, end: UserItems)
    requires |end| <= 1 && (end != [] ==> end[0].Err?)
    ensures Told(id, Reader.Oks(ms) + end) ==
            seq(|ms|, i requires 0 <= i < |ms| => NewMessage(id, ms[i])) + Told(id, end)
    decreases |ms|
  {
    if ms == [] {
      assert Reader.Oks(ms) + end == end;
    } else {
      ToldMessages(id, ms[1..], end);
      assert (Reader.Oks(ms) + end)[1..] == Reader.Oks(ms[1..]) + end;
    }
  }

  // ---------------------------------------------------------------- the task's loop

  /** The events es of one task, with what other tasks send before the k-th, the k+1-st, and so on. */
  function Amid(others: nat -> seq<Event>, k: nat, es: seq<Event>): seq<Event>
    decreases |es|
  {
    if es == [] then [] else others(k) + [es[0]] + Amid(others, k + 1, es[1..])
  }

  lemma {:induction false} AmidSnoc(others: nat -> seq<Event>, k: nat, es: seq<Event>, e: Event)
    ensures Amid(others, k, es + [e]) == Amid(others, k, es) + (others(k + |es|) + [e])
    decreases |es|
  {
    if es == [] {
      assert es + [e] == [e] && [e][1..] == [];
      assert Amid(others, k + 1, []) == [];
    } else {
      AmidSnoc(others, k + 1, es[1..], e);
      assert (es + [e])[1..] == es[1..] + [e];
    }
  }

  lemma {:induction false} ProjectConcat(a: seq<Event>, b: seq<Event>, id: nat)
    ensures Project(a + b, id) == Project(a, id) + Project(b, id)
    decreases |b|
  {
    if b == [] {
      assert a + b == a;
    } else {
      var n := |b| - 1;
      ProjectConcat(a, b[..n], id);
      assert (a + b)[..|a| + n] == a + b[..n];
    }
  }

  lemma {:induction false} ProjectOther(es: seq<Event>, id: nat)
    requires forall e | e in es :: e.id != id
    ensures Project(es, id) == []
    decreases |es|
  {
    if es != [] { ProjectOther(es[..|es| - 1], id); }
  }

  /** The other tasks send about other clients. */
  ghost predicate Elsewhere(others: nat -> seq<Event>, id: nat) {
    forall n: nat, e | e in others(n) :: e.id != id
  }

  /** Whatever the other tasks send, a client's own events come out as they were sent. */
  lemma {:induction false} ProjectAmid(others: nat -> seq<Event>, k: nat, es: seq<Event>, id: nat)
    requires forall e | e in es :: e.id == id
    requires Elsewhere(others, id)
    ensures Project(Amid(others, k, es), id) == es
    decreases |es|
  {
    hide Project;
    if es == [] {
      ProjectOther([], id);
    } else {
      var o, more := others(k), Amid(others, k + 1, es[1..]);
      ProjectOther(o, id);
      ProjectSnoc(o, es[0], id);
      ProjectConcat(o + [es[0]], more, id);
      ProjectAmid(others, k + 1, es[1..], id);
      assert [] + [es[0]] + es[1..] == es;
    }
  }

  lemma {:induction false} ToldIds(id: nat, items: UserItems)
    ensures forall e | e in Told(id, items) :: e.id == id
    decreases |items|
  {
    if items != [] && items[0].Ok? { ToldIds(id, items[1..]); }
  }

  /** The channel that all tasks share, as one of them sees it. */
  class EventChannel {
    var events: seq<Event>
    /** What other tasks send before the k-th event of this one. */
    const others: nat -> seq<Event>
    var sent: nat

    constructor (others: nat -> seq<Event>)
      ensures events == [] && sent == 0 && this.others == others
    {
      this.others, events, sent := others, [], 0;
    }

    method Send(e: Event)
      modifies this
      ensures sent == old(sent) + 1
      ensures events == old(events) + (others(old(sent)) + [e])
    {
      events := events + others(sent) + [e];
      sent := sent + 1;
    }
  }

  /**
   The spawned task of one client, among other tasks that send about other clients: the messages up
   to the first error, the error, and Disconnect.
   */
  method ClientTask(tx: EventChannel, id: nat, items: UserItems)
    modifies tx
    ensures var own := Told(id, items) + [Disconnect(id)];
      && tx.events == old(tx.events) + Amid(tx.others, old(tx.sent), own)
      && (Elsewhere(tx.others, id) ==> Project(tx.events, id) == Project(old(tx.events), id) + own)
  {
    hide Amid, Project, Elsewhere;
    var wsReader := items;
    ghost var done: seq<Event> := [];
    NothingSent(tx.others, tx.sent);
    while wsReader != []
      invariant done + Told(id, wsReader) == Told(id, items)
      invariant tx.sent == old(tx.sent) + |done|
      invariant tx.events == old(tx.events) + Amid(tx.others, old(tx.sent), done)
      decreases |wsReader|
    {
      var result := wsReader[0];
      wsReader := wsReader[1..];
      match result {
        case Ok(m) =>
          tx.Send(NewMessage(id, m));
          AmidSnoc(tx.others, old(tx.sent), done, NewMessage(id, m));
          done := done + [NewMessage(id, m)];
        case Err(e) =>
          tx.Send(Failure(id, e));
          AmidSnoc(tx.others, old(tx.sent), done, Failure(id, e));
          done := done + [Failure(id, e)];
          break;
      }
    }
    assert done == Told(id, items);
    tx.Send(Disconnect(id));
    AmidSnoc(tx.others, old(tx.sent), done, Disconnect(id));
    OwnEvents(old(tx.events), tx.others, old(tx.sent), id, items);
  }

  lemma NothingSent(others: nat -> seq<Event>, k: nat)
    ensures Amid(others, k, []) == []
  {
  }

  lemma OwnEvents(log: seq<Event>, others: nat -> seq<Event>, k: nat, id: nat, items: UserItems)
    ensures var own := Told(id, items) + [Disconnect(id)];
      Elsewhere(others, id) ==> Project(log + Amid(others, k, own), id) == Project(log, id) + own
  {
    hide Project, Elsewhere;
    var own := Told(id, items) + [Disconnect(id)];
    ToldIds(id, items);
    if Elsewhere(others, id) {
      ProjectConcat(log, Amid(others, k, own), id);
      ProjectAmid(others, k, own, id);
    }
  }
}
