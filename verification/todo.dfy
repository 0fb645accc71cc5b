/**
 Questions for peers and who has been asked (todo.c, and the peer numbers of peer.c).
 */
module Todo {
  import opened Wrappers
  import opened Sequences

  const MaxPeers: nat := 64
  const MaxRequests: nat := 4

  /** The packet types of a request, with the fields that tell requests apart (todo.c:11-54). */
  datatype Key =
    | GetBlock(sha: nat)
    | GetShard(sha: nat, shard: nat)
    | GetTxmap(sha: nat, shard: nat)
    | GetChildren(sha: nat)
    | GetTxInBlock(sha: nat, shard: nat, txoff: nat)
    | GetTx(sha: nat)

  /** struct todo_request */
  datatype Request = Request(key: Key, asked: set<nat>, failed: set<nat>)

  /** The peer was asked and has not answered. */
  predicate WaitsFor(r: Request, peer: nat) {
    peer in r.asked && peer !in r.failed
  }

  function One(b: bool): (n: nat) {
    if b then 1 else 0
  }

  /** On how many requests do we wait for this peer? */
  ghost function Waiting(todo: seq<Request>, peer: nat): (n: nat) {
    if todo == [] then 0 else Waiting(todo[..|todo| - 1], peer) + One(WaitsFor(todo[|todo| - 1], peer))
  }

  lemma WaitingSnoc(todo: seq<Request>, r: Request, peer: nat)
    ensures Waiting(todo + [r], peer) == Waiting(todo, peer) + One(WaitsFor(r, peer))
  {
    assert (todo + [r])[..|todo|] == todo;
  }

  lemma {:induction false} WaitingUpdate(todo: seq<Request>, i: nat, r: Request, peer: nat)
    requires i < |todo|
    ensures Waiting(todo[i := r], peer) + One(WaitsFor(todo[i], peer)) == Waiting(todo, peer) + One(WaitsFor(r, peer))
  {
    var n := |todo| - 1;
    if i == n {
      assert todo[i := r][..n] == todo[..n];
    } else {
      assert todo[i := r][..n] == todo[..n][i := r];
      WaitingUpdate(todo[..n], i, r, peer);
    }
  }

  lemma {:induction false} WaitingRemove(todo: seq<Request>, i: nat, peer: nat)
    requires i < |todo|
    ensures Waiting(RemoveAt(todo, i), peer) + One(WaitsFor(todo[i], peer)) == Waiting(todo, peer)
  {
    var n := |todo| - 1;
    if i == n {
      assert RemoveAt(todo, i) == todo[..n];
    } else {
      WaitingRemove(todo[..n], i, peer);
      RemoveAtFront(todo, i);
      WaitingSnoc(RemoveAt(todo[..n], i), todo[n], peer);
    }
  }

  ghost predicate DistinctKeys(todo: seq<Request>) {
    forall i, j :: 0 <= i < j < |todo| ==> todo[i].key != todo[j].key
  }

  /** Answers come only from those asked, and those asked are still with us. */
  ghost predicate WellAsked(todo: seq<Request>, peers: set<nat>) {
    forall i :: 0 <= i < |todo| ==> todo[i].failed <= todo[i].asked <= peers
  }

  ghost predicate HasKey(todo: seq<Request>, key: Key) {
    exists i :: 0 <= i < |todo| && todo[i].key == key
  }

  /** Do we wait for this peer's answer to the request with this key? */
  ghost predicate WaitsOn(todo: seq<Request>, key: Key, peer: nat) {
    exists i :: 0 <= i < |todo| && todo[i].key == key && WaitsFor(todo[i], peer)
  }

  /** Has the request with this key gone to this peer? */
  ghost predicate HasAsked(todo: seq<Request>, key: Key, peer: nat) {
    exists r :: r in todo && r.key == key && peer in r.asked
  }

  /** remove_peer_from_todo on one request. */
  function Forgotten(r: Request, peer: nat): (r': Request) {
    r.(asked := r.asked - {peer}, failed := r.failed - {peer})
  }

  /** The requests with other keys, in their order. */
  ghost function Without(todo: seq<Request>, gone: iset<Key>): (r: seq<Request>) {
    if todo == [] then []
    else
      var last := todo[|todo| - 1];
      Without(todo[..|todo| - 1], gone) + if last.key in gone then [] else [last]
  }

  ghost function AboutBlock(sha: nat): (keys: iset<Key>) {
    iset k: Key | k.sha == sha
  }

  lemma WithoutSnoc(todo: seq<Request>, r: Request, gone: iset<Key>)
    ensures Without(todo + [r], gone) == Without(todo, gone) + if r.key in gone then [] else [r]
  {
    assert (todo + [r])[..|todo|] == todo;
  }

  lemma {:induction false} WithoutMembers(todo: seq<Request>, gone: iset<Key>)
    ensures forall r :: r in Without(todo, gone) <==> r in todo && r.key !in gone
  {
    if todo != [] {
      WithoutMembers(todo[..|todo| - 1], gone);
      assert todo == todo[..|todo| - 1] + [todo[|todo| - 1]];
    }
  }

  lemma {:induction false} WithoutDropped(todo: seq<Request>, i: nat, gone: iset<Key>)
    requires i < |todo| && todo[i].key in gone
    ensures Without(RemoveAt(todo, i), gone) == Without(todo, gone)
  {
    var n := |todo| - 1;
    if i == n {
      assert RemoveAt(todo, i) == todo[..n];
    } else {
      WithoutDropped(todo[..n], i, gone);
      RemoveAtFront(todo, i);
      WithoutSnoc(RemoveAt(todo[..n], i), todo[n], gone);
    }
  }

  lemma {:induction false} WithoutNone(todo: seq<Request>, gone: iset<Key>)
    requires forall i :: 0 <= i < |todo| ==> todo[i].key !in gone
    ensures Without(todo, gone) == todo
  {
    if todo != [] {
      WithoutNone(todo[..|todo| - 1], gone);
      assert todo == todo[..|todo| - 1] + [todo[|todo| - 1]];
    }
  }

  class TodoState {
    /** requests_outstanding of every live peer. */
    var outstanding: map<nat, nat>
    var todo: seq<Request>
    /** Counts that todo_forget_about_block left behind. */
    ghost var leaked: map<nat, nat>

    ghost predicate Valid()
      reads this
    {
      && (forall p :: p in outstanding ==> p < MaxPeers)
      && leaked.Keys == outstanding.Keys
      && DistinctKeys(todo)
      && WellAsked(todo, outstanding.Keys)
      && (forall p :: p in outstanding ==>
            outstanding[p] == Waiting(todo, p) + leaked[p] && outstanding[p] <= MaxRequests)
    }

    constructor ()
      ensures Valid() && outstanding == map[] && todo == []
    {
      outstanding, todo, leaked := map[], [], map[];
    }

    /** find_todo, todo.c:61-86: the index, or the length. */
    method FindTodo(key: Key) returns (i: nat)
      ensures i <= |todo|
      ensures i < |todo| ==> todo[i].key == key
      ensures i == |todo| ==> forall k :: 0 <= k < |todo| ==> todo[k].key != key
    {
      i := 0;
      while i < |todo|
        invariant i <= |todo| && forall k :: 0 <= k < i ==> todo[k].key != key
      {
        if todo[i].key == key {
          return;
        }
        i := i + 1;
      }
    }

    /** new_todo_request_, todo.c:92-125. */
    method NewRequest(key: Key)
      requires Valid()
      modifies this`todo
      ensures Valid()
      ensures todo == if HasKey(old(todo), key) then old(todo) else old(todo) + [Request(key, {}, {})]
      ensures exists i :: 0 <= i < |todo| && todo[i].key == key
    {
      var i := FindTodo(key);
      if i == |todo| {
        forall p ensures Waiting(todo + [Request(key, {}, {})], p) == Waiting(todo, p) {
          WaitingSnoc(todo, Request(key, {}, {}), p);
        }
        todo := todo + [Request(key, {}, {})];
        assert todo[|todo| - 1].key == key;
      }
    }

    /** alloc_peer, peer.c:1680-1714: the lowest free number, if any. */
    method AllocPeer() returns (r: Option<nat>)
      requires Valid()
      modifies this`outstanding, this`leaked
      ensures Valid()
      ensures r.Some? ==> r.value < MaxPeers && r.value !in old(outstanding) && outstanding == old(outstanding)[r.value := 0]
      ensures r.Some? ==> forall p :: 0 <= p < r.value ==> p in old(outstanding)
      ensures r.None? ==> outstanding == old(outstanding)
      ensures r.None? <==> forall p :: 0 <= p < MaxPeers ==> p in old(outstanding)
      ensures leaked == if r.Some? then old(leaked)[r.value := 0] else old(leaked)
    {
      var i: nat := 0;
      while i < MaxPeers && i in outstanding
        invariant i <= MaxPeers && forall p :: 0 <= p < i ==> p in outstanding
      {
        i := i + 1;
      }
      if i == MaxPeers {
        return None;
      }
      NobodyAsked(todo, outstanding.Keys, i);
      outstanding := outstanding[i := 0];
      leaked := leaked[i := 0];
      return Some(i);
    }

    /** get_todo_pkt's general part, todo.c:345-360. */
    method GetTodoPkt(peer: nat) returns (r: Option<Key>)
      requires Valid() && peer in outstanding
      modifies this`todo, this`outstanding
      ensures Valid() && |todo| == |old(todo)|
      ensures r.None? ==> todo == old(todo) && outstanding == old(outstanding)
      ensures r.None? <==> old(outstanding)[peer] == MaxRequests || forall i :: 0 <= i < |todo| ==> peer in old(todo)[i].asked
      ensures r.Some? ==> outstanding == old(outstanding)[peer := old(outstanding)[peer] + 1]
      ensures r.Some? ==> exists i :: 0 <= i < |todo| && Asks(old(todo), todo, i, peer, r.value)
      ensures leaked == old(leaked)
    {
      if outstanding[peer] >= MaxRequests {
        return None;
      }
      var i: nat := 0;
      while i < |todo| && peer in todo[i].asked
        invariant i <= |todo| && forall k :: 0 <= k < i ==> peer in todo[k].asked
      {
        i := i + 1;
      }
      if i == |todo| {
        return None;
      }
      Ask(i, peer);
      return Some(todo[i].key);
    }

    /** todo.c:352-353 */
    method Ask(i: nat, peer: nat)
      requires Valid() && peer in outstanding && outstanding[peer] < MaxRequests && i < |todo| && peer !in todo[i].asked
      requires forall k :: 0 <= k < i ==> peer in todo[k].asked
      modifies this`todo, this`outstanding
      ensures Valid() && |todo| == |old(todo)|
      ensures outstanding == old(outstanding)[peer := old(outstanding)[peer] + 1]
      ensures Asks(old(todo), todo, i, peer, todo[i].key)
    {
      var r := todo[i].(asked := todo[i].asked + {peer});
      forall p ensures Waiting(todo[i := r], p) == Waiting(todo, p) + One(p == peer) {
        WaitingUpdate(todo, i, r, p);
      }
      UpdateKeeps(todo, i, r, outstanding.Keys);
      todo := todo[i := r];
      outstanding := outstanding[peer := outstanding[peer] + 1];
    }

    /** delete_todo, todo.c:211-224: every peer asked is there, and no counter goes below zero. */
    method DeleteTodo(i: nat)
      requires Valid() && i < |todo|
      modifies this`todo, this`outstanding
      ensures Valid() && todo == RemoveAt(old(todo), i) && outstanding.Keys == old(outstanding).Keys
      ensures forall p :: p in outstanding ==> outstanding[p] + One(WaitsFor(old(todo)[i], p)) == old(outstanding)[p]
    {
      var r := todo[i];
      todo := RemoveAt(todo, i);
      RemoveKeeps(old(todo), i, outstanding.Keys);
      forall p ensures Waiting(todo, p) + One(WaitsFor(r, p)) == Waiting(old(todo), p) {
        WaitingRemove(old(todo), i, p);
      }
      Release(r);
    }

    /** The loop of delete_todo, todo.c:217-221: find_peer always finds, and no counter wraps. */
    method Release(r: Request)
      requires forall p :: p in outstanding ==> p < MaxPeers
      requires forall p :: WaitsFor(r, p) ==> p in outstanding && outstanding[p] > 0
      modifies this`outstanding
      ensures outstanding.Keys == old(outstanding).Keys
      ensures forall p :: p in outstanding ==> outstanding[p] == old(outstanding)[p] - One(WaitsFor(r, p))
    {
      ghost var before := outstanding;
      for n := 0 to MaxPeers
        invariant outstanding.Keys == before.Keys
        invariant forall p :: p in before ==> outstanding[p] == if p < n then before[p] - One(WaitsFor(r, p)) else before[p]
      {
        if WaitsFor(r, n) {
          assert n in outstanding;
          outstanding := outstanding[n := outstanding[n] - 1];
        }
      }
    }

    /** finish_todo, todo.c:226-268. */
    method FinishTodo(peer: nat, key: Key, success: bool)
      requires Valid() && peer in outstanding
      modifies this`todo, this`outstanding
      ensures Valid() && outstanding.Keys == old(outstanding).Keys
      ensures success ==> todo == Without(old(todo), iset{key})
      ensures success ==> forall r :: r in todo <==> r in old(todo) && r.key != key
      ensures success ==> forall p :: p in outstanding ==>
                outstanding[p] + One(WaitsOn(old(todo), key, p)) == old(outstanding)[p]
      ensures !success ==> |todo| == |old(todo)| && forall i :: 0 <= i < |todo| ==> todo[i] == Failed(old(todo)[i], key, peer)
      ensures !success ==> forall p :: p in outstanding ==>
                outstanding[p] + One(p == peer && WaitsOn(old(todo), key, peer)) == old(outstanding)[p]
    {
      var i := FindTodo(key);
      WithoutMembers(todo, iset{key});
      if i == |todo| {
        WithoutNone(todo, iset{key});
        return;
      }
      if success {
        DeleteFound(i);
      } else {
        FailFound(i, peer);
      }
    }

    method FailFound(i: nat, peer: nat)
      requires Valid() && peer in outstanding && i < |todo|
      modifies this`todo, this`outstanding
      ensures Valid() && outstanding.Keys == old(outstanding).Keys
      ensures |todo| == |old(todo)| && forall k :: 0 <= k < |todo| ==> todo[k] == Failed(old(todo)[k], old(todo)[i].key, peer)
      ensures forall p :: p in outstanding ==>
                outstanding[p] + One(p == peer && WaitsOn(old(todo), old(todo)[i].key, peer)) == old(outstanding)[p]
    {
      if WaitsFor(todo[i], peer) {
        Fail(i, peer);
      }
    }

    method DeleteFound(i: nat)
      requires Valid() && i < |todo|
      modifies this`todo, this`outstanding
      ensures Valid() && outstanding.Keys == old(outstanding).Keys
      ensures todo == Without(old(todo), iset{old(todo)[i].key})
      ensures forall p :: p in outstanding ==>
                outstanding[p] + One(WaitsOn(old(todo), old(todo)[i].key, p)) == old(outstanding)[p]
    {
      RemoveByKey(todo, i);
      DeleteTodo(i);
    }

    /** todo.c:264-266 */
    method Fail(i: nat, peer: nat)
      requires Valid() && peer in outstanding && i < |todo| && WaitsFor(todo[i], peer)
      modifies this`todo, this`outstanding
      ensures Valid() && outstanding.Keys == old(outstanding).Keys
      ensures forall p :: p in outstanding ==> outstanding[p] + One(p == peer) == old(outstanding)[p]
      ensures todo == old(todo)[i := old(todo)[i].(failed := old(todo)[i].failed + {peer})]
    {
      var r := todo[i].(failed := todo[i].failed + {peer});
      FailedWaiting(todo, i, peer);
      assert outstanding[peer] > 0;
      UpdateKeeps(todo, i, r, outstanding.Keys);
      todo := todo[i := r];
      outstanding := outstanding[peer := outstanding[peer] - 1];
    }

    /** destroy_peer and remove_peer_from_todo (peer.c:1640-1665, todo.c:201-209). */
    method RemovePeer(peer: nat)
      requires Valid() && peer in outstanding
      modifies this
      ensures Valid() && outstanding == old(outstanding) - {peer} && |todo| == |old(todo)|
      ensures forall i :: 0 <= i < |todo| ==> todo[i] == Forgotten(old(todo)[i], peer)
      ensures leaked == old(leaked) - {peer}
    {
      outstanding := outstanding - {peer};
      leaked := leaked - {peer};
      ClearPeer(peer);
      ForgottenWaiting(old(todo), todo, peer);
      forall i | 0 <= i < |todo| ensures todo[i].failed <= todo[i].asked <= outstanding.Keys {
        assert old(todo)[i].failed <= old(todo)[i].asked;
      }
    }

    /** remove_peer_from_todo, todo.c:201-209. */
    method ClearPeer(peer: nat)
      modifies this`todo
      ensures |todo| == |old(todo)| && forall i :: 0 <= i < |todo| ==> todo[i] == Forgotten(old(todo)[i], peer)
    {
      for i := 0 to |todo|
        invariant |todo| == |old(todo)|
        invariant forall k :: 0 <= k < |todo| ==> todo[k] == if k < i then Forgotten(old(todo)[k], peer) else old(todo)[k]
      {
        todo := todo[i := Forgotten(todo[i], peer)];
      }
    }

    /** todo_forget_about_block, todo.c:312-329: requests go, the counters stay. */
    method ForgetAboutBlock(sha: nat)
      requires Valid()
      modifies this`todo, this`leaked
      ensures Valid()
      ensures todo == Without(old(todo), AboutBlock(sha))
      ensures forall r :: r in todo <==> r in old(todo) && r.key.sha != sha
      ensures leaked.Keys == old(leaked).Keys
      ensures forall p :: p in leaked ==> leaked[p] == old(leaked)[p] + Waiting(old(todo), p) - Waiting(todo, p)
      ensures forall p :: Waiting(todo, p) <= Waiting(old(todo), p)
    {
      var i: nat := 0;
      while i < |todo|
        invariant Valid() && i <= |todo| && leaked.Keys == old(leaked).Keys
        invariant forall k :: 0 <= k < i ==> todo[k].key.sha != sha
        invariant Without(todo, AboutBlock(sha)) == Without(old(todo), AboutBlock(sha))
        invariant forall p :: p in leaked ==> leaked[p] == old(leaked)[p] + Waiting(old(todo), p) - Waiting(todo, p)
        invariant forall p :: Waiting(todo, p) <= Waiting(old(todo), p)
        decreases |todo| - i
      {
        if todo[i].key.sha == sha {
          WithoutDropped(todo, i, AboutBlock(sha));
          DropRequest(i);
        } else {
          i := i + 1;
        }
      }
      WithoutNone(todo, AboutBlock(sha));
      WithoutMembers(old(todo), AboutBlock(sha));
    }

    /** todo.c:326-327 */
    method DropRequest(i: nat)
      requires Valid() && i < |todo|
      modifies this`todo, this`leaked
      ensures Valid() && todo == RemoveAt(old(todo), i) && leaked.Keys == old(leaked).Keys
      ensures forall p :: p in leaked ==> leaked[p] == old(leaked)[p] + Waiting(old(todo), p) - Waiting(todo, p)
      ensures forall p :: Waiting(todo, p) <= Waiting(old(todo), p)
    {
      ghost var r := todo[i];
      forall p ensures Waiting(RemoveAt(todo, i), p) + One(WaitsFor(r, p)) == Waiting(todo, p) {
        WaitingRemove(todo, i, p);
      }
      RemoveKeeps(todo, i, outstanding.Keys);
      todo := RemoveAt(todo, i);
      leaked := map p | p in leaked :: leaked[p] + One(WaitsFor(r, p));
    }

    predicate Applicable(e: Event)
      reads this
    {
      match e
      case Want(_) => true
      case Connect => true
      case Poll(peer) => peer in outstanding
      case Answer(peer, _, _) => peer in outstanding
      case Disconnect(peer) => peer in outstanding
      case Forget(_) => true
    }

    /** One event, and the request that goes out because of it.  What has leaked from a peer's
        counter never comes back while the peer is connected. */
    method Apply(e: Event) returns (sent: Option<Key>)
      requires Valid() && Applicable(e)
      modifies this
      ensures Valid()
      ensures !e.Forget? && old(Settled()) ==> Settled()
      ensures forall p :: p in old(leaked) && e != Disconnect(p) ==> p in leaked && leaked[p] >= old(leaked)[p]
      ensures e.Poll? && old(outstanding)[e.peer] == MaxRequests ==> sent.None?
      ensures sent.Some? ==> e.Poll? && !HasAsked(old(todo), sent.value, e.peer) && HasAsked(todo, sent.value, e.peer)
      ensures Remembered(old(todo), todo, e)
      ensures Effect(Snapshot(old(outstanding), old(todo)), e, sent, Snapshot(outstanding, todo))
    {
      sent := None;
      match e {
        case Want(key) => NewRequest(key);
        case Connect => ConnectPeer();
        case Poll(peer) => sent := PollPeer(peer);
        case Answer(peer, key, success) => AnswerFrom(peer, key, success);
        case Disconnect(peer) =>
          RemovePeer(peer);
          SameAskedRemembers(old(todo), todo, e);
        case Forget(sha) => ForgetAboutBlock(sha);
      }
    }

    method ConnectPeer()
      requires Valid()
      modifies this`outstanding, this`leaked
      ensures Valid() && Effect(Snapshot(old(outstanding), old(todo)), Connect, None, Snapshot(outstanding, todo))
      ensures forall p :: p in old(leaked) ==> p in leaked && leaked[p] == old(leaked)[p]
      ensures old(Settled()) ==> Settled()
    {
      var r := AllocPeer();
      if r.Some? {
        assert LowestFree(old(outstanding), r.value);
      }
    }

    method PollPeer(peer: nat) returns (sent: Option<Key>)
      requires Valid() && peer in outstanding
      modifies this`todo, this`outstanding
      ensures Valid() && Effect(Snapshot(old(outstanding), old(todo)), Poll(peer), sent, Snapshot(outstanding, todo))
      ensures old(outstanding)[peer] == MaxRequests ==> sent.None?
      ensures sent.Some? ==> !HasAsked(old(todo), sent.value, peer) && HasAsked(todo, sent.value, peer)
      ensures Remembered(old(todo), todo, Poll(peer))
    {
      sent := GetTodoPkt(peer);
      PollRemembers(old(todo), todo, peer, sent);
      if sent.None? {
        AllAsked(todo, peer);
      }
    }

    method AnswerFrom(peer: nat, key: Key, success: bool)
      requires Valid() && peer in outstanding
      modifies this`todo, this`outstanding
      ensures Valid() && Answered(Snapshot(old(outstanding), old(todo)), peer, key, success, Snapshot(outstanding, todo))
      ensures Remembered(old(todo), todo, Answer(peer, key, success))
    {
      FinishTodo(peer, key, success);
      if !success {
        SameAskedRemembers(old(todo), todo, Answer(peer, key, success));
      }
    }

    /** Every count the peer may have is lost. */
    ghost predicate Starved(p: nat)
      reads this
    {
      p in outstanding && outstanding[p] == Waiting(todo, p) + MaxRequests
    }

    /** A peer of whom nothing is awaited can be asked a new question exactly if it is not starved. */
    method AskAgain(peer: nat, key: Key) returns (sent: Option<Key>)
      requires Valid() && peer in outstanding && Waiting(todo, peer) == 0
      requires forall i :: 0 <= i < |todo| ==> todo[i].key != key
      modifies this`todo, this`outstanding
      ensures Valid()
      ensures sent.Some? <==> !old(Starved(peer))
    {
      NewRequest(key);
      assert todo[|todo| - 1].asked == {};
      ghost var before := todo;
      sent := GetTodoPkt(peer);
      assert peer !in before[|before| - 1].asked;
    }

    /** Nothing has leaked: the counters are exactly the open questions. */
    ghost predicate Settled()
      reads this
    {
      forall p :: p in leaked ==> leaked[p] == 0
    }

    /** Any run, with the states it goes through.  The counters stay exact as long as no block is forgotten; a
        starved peer is asked nothing until it disconnects; no request goes to a peer twice. */
    method Run(events: seq<Event>) returns (sent: seq<Option<Key>>, ghost trace: seq<Snapshot>)
      requires Valid()
      modifies this
      ensures Valid() && |sent| == |events|
      ensures old(Settled()) && (forall i :: 0 <= i < |events| ==> !events[i].Forget?) ==>
                forall p :: p in outstanding ==> outstanding[p] == Waiting(todo, p)
      ensures forall p, i: nat :: i < |events| && events[i] == Poll(p) && old(Starved(p)) && Stays(events, i, p) ==> sent[i] == None
      ensures AskedOnce(events, sent)
      ensures Traces(events, sent, trace)
      ensures trace[0] == Snapshot(old(outstanding), old(todo)) && trace[|events|] == Snapshot(outstanding, todo)
    {
      sent, trace := [], [Snapshot(outstanding, todo)];
      ghost var hungry := set p | p in outstanding && Starved(p);
      for i := 0 to |events|
        invariant Valid() && |sent| == i
        invariant old(Settled()) && (forall k :: 0 <= k < i ==> !events[k].Forget?) ==> Settled()
        invariant SoFar(events, i, sent, trace, leaked, hungry)
        invariant trace[0] == Snapshot(old(outstanding), old(todo)) && trace[i] == Snapshot(outstanding, todo)
      {
        ghost var leaked0 := leaked;
        FullCounters(outstanding, leaked, todo);
        var r := ApplyIfPossible(events[i]);
        SoFarMore(events, i, sent, trace, r, leaked0, leaked, hungry, Snapshot(outstanding, todo));
        sent := sent + [r];
        trace := trace + [Snapshot(outstanding, todo)];
      }
      assert events[..|events|] == events;
    }

    method ApplyIfPossible(e: Event) returns (sent: Option<Key>)
      requires Valid()
      modifies this
      ensures Valid()
      ensures !e.Forget? && old(Settled()) ==> Settled()
      ensures forall p :: p in old(leaked) && e != Disconnect(p) ==> p in leaked && leaked[p] >= old(leaked)[p]
      ensures e.Poll? && e.peer in old(outstanding) && old(outstanding)[e.peer] == MaxRequests ==> sent.None?
      ensures sent.Some? ==> e.Poll? && !HasAsked(old(todo), sent.value, e.peer) && HasAsked(todo, sent.value, e.peer)
      ensures Remembered(old(todo), todo, e)
      ensures Steps(Snapshot(old(outstanding), old(todo)), e, sent, Snapshot(outstanding, todo))
    {
      sent := None;
      if Applicable(e) {
        sent := Apply(e);
      }
    }
  }

  /** Those of the hungry that have not disconnected have lost all their counts. */
  ghost predicate StillStarved(leaked: map<nat, nat>, hungry: set<nat>, events: seq<Event>, n: nat) {
    forall p :: p in hungry && Stays(events, n, p) ==> p in leaked && leaked[p] >= MaxRequests
  }

  /** They were sent nothing. */
  ghost predicate Silent(events: seq<Event>, sent: seq<Option<Key>>, hungry: set<nat>) {
    forall p, i: nat :: i < |events| && i < |sent| && events[i] == Poll(p) && p in hungry && Stays(events, i, p) ==> sent[i] == None
  }

  lemma StarvedMore(events: seq<Event>, sent: seq<Option<Key>>, r: Option<Key>, hungry: set<nat>,
                    leaked: map<nat, nat>, leaked': map<nat, nat>, outstanding: map<nat, nat>)
    requires |sent| < |events| && StillStarved(leaked, hungry, events, |sent|) && Silent(events, sent, hungry)
    requires forall p :: p in leaked && events[|sent|] != Disconnect(p) ==> p in leaked' && leaked'[p] >= leaked[p]
    requires forall p :: p in leaked && leaked[p] >= MaxRequests ==> p in outstanding && outstanding[p] == MaxRequests
    requires events[|sent|].Poll? && events[|sent|].peer in outstanding && outstanding[events[|sent|].peer] == MaxRequests ==> r.None?
    ensures StillStarved(leaked', hungry, events, |sent| + 1) && Silent(events, sent + [r], hungry)
  {
    var n := |sent|;
    forall p | p in hungry && Stays(events, n + 1, p) ensures p in leaked' && leaked'[p] >= MaxRequests {
      assert Stays(events, n, p) && events[n] != Disconnect(p);
    }
  }

  lemma FullCounters(outstanding: map<nat, nat>, leaked: map<nat, nat>, todo: seq<Request>)
    requires leaked.Keys == outstanding.Keys
    requires forall p :: p in outstanding ==> outstanding[p] == Waiting(todo, p) + leaked[p] && outstanding[p] <= MaxRequests
    ensures forall p :: p in leaked && leaked[p] >= MaxRequests ==> p in outstanding && outstanding[p] == MaxRequests
  {
  }

  /** What a run keeps track of. */
  ghost predicate SoFar(events: seq<Event>, n: nat, sent: seq<Option<Key>>, trace: seq<Snapshot>, leaked: map<nat, nat>, hungry: set<nat>) {
    && n <= |events| && Traces(events[..n], sent, trace)
    && StillStarved(leaked, hungry, events, n) && Silent(events, sent, hungry)
    && AskedOnce(events, sent) && StillAsked(events, sent, trace[n].todo)
  }

  lemma SoFarMore(events: seq<Event>, n: nat, sent: seq<Option<Key>>, trace: seq<Snapshot>, r: Option<Key>,
                  leaked: map<nat, nat>, leaked': map<nat, nat>, hungry: set<nat>, s: Snapshot)
    requires n < |events| && SoFar(events, n, sent, trace, leaked, hungry)
    requires Steps(trace[n], events[n], r, s) && Remembered(trace[n].todo, s.todo, events[n])
    requires r.Some? ==> events[n].Poll?
    requires r.Some? ==> !HasAsked(trace[n].todo, r.value, events[n].peer) && HasAsked(s.todo, r.value, events[n].peer)
    requires forall p :: p in leaked && events[n] != Disconnect(p) ==> p in leaked' && leaked'[p] >= leaked[p]
    requires forall p :: p in leaked && leaked[p] >= MaxRequests ==> p in trace[n].outstanding && trace[n].outstanding[p] == MaxRequests
    requires events[n].Poll? && events[n].peer in trace[n].outstanding && trace[n].outstanding[events[n].peer] == MaxRequests ==> r.None?
    ensures SoFar(events, n + 1, sent + [r], trace + [s], leaked', hungry)
  {
    OnceMore(events, sent, r, trace[n].todo, s.todo);
    TraceMore(events, n, sent, trace, r, s);
    StarvedMore(events, sent, r, hungry, leaked, leaked', trace[n].outstanding);
  }

  datatype Snapshot = Snapshot(outstanding: map<nat, nat>, todo: seq<Request>)

  /** What an event does to the requests and counters. */
  ghost predicate Effect(s: Snapshot, e: Event, sent: Option<Key>, s': Snapshot) {
    match e
    case Want(key) =>
      s' == s.(todo := if HasKey(s.todo, key) then s.todo else s.todo + [Request(key, {}, {})])
    case Connect =>
      && s'.todo == s.todo
      && (if forall p :: 0 <= p < MaxPeers ==> p in s.outstanding then s'.outstanding == s.outstanding
          else exists p: nat :: LowestFree(s.outstanding, p) && s'.outstanding == s.outstanding[p := 0])
    case Poll(peer) =>
      && peer in s.outstanding
      && (if sent.None? then s' == s && (s.outstanding[peer] == MaxRequests || forall r :: r in s.todo ==> peer in r.asked)
          else
            && s'.outstanding == s.outstanding[peer := s.outstanding[peer] + 1]
            && exists i: nat :: Asks(s.todo, s'.todo, i, peer, sent.value))
    case Answer(peer, key, success) => Answered(s, peer, key, success, s')
    case Disconnect(peer) =>
      && s'.outstanding == s.outstanding - {peer} && |s'.todo| == |s.todo|
      && forall i :: 0 <= i < |s.todo| ==> s'.todo[i] == Forgotten(s.todo[i], peer)
    case Forget(sha) => s' == s.(todo := Without(s.todo, AboutBlock(sha)))
  }

  ghost predicate LowestFree(outstanding: map<nat, nat>, p: nat) {
    p < MaxPeers && p !in outstanding && forall q: nat :: q < p ==> q in outstanding
  }

  /** Success takes the request away and releases what was waited for on it; failure sets one failed bit. */
  ghost predicate Answered(s: Snapshot, peer: nat, key: Key, success: bool, s': Snapshot) {
    && s'.outstanding.Keys == s.outstanding.Keys
    && if success then
      && s'.todo == Without(s.todo, iset{key})
      && (forall p :: p in s.outstanding ==> s'.outstanding[p] + One(WaitsOn(s.todo, key, p)) == s.outstanding[p])
    else
      && |s'.todo| == |s.todo|
      && (forall i :: 0 <= i < |s.todo| ==> s'.todo[i] == Failed(s.todo[i], key, peer))
      && (forall p :: p in s.outstanding ==>
            s'.outstanding[p] + One(p == peer && WaitsOn(s.todo, key, peer)) == s.outstanding[p])
  }

  function Failed(r: Request, key: Key, peer: nat): (r': Request) {
    if r.key == key && WaitsFor(r, peer) then r.(failed := r.failed + {peer}) else r
  }

  /** An event about a peer that is not there does nothing. */
  ghost predicate Steps(s: Snapshot, e: Event, sent: Option<Key>, s': Snapshot) {
    if (e.Poll? || e.Answer? || e.Disconnect?) && e.peer !in s.outstanding then s' == s && sent == None
    else Effect(s, e, sent, s')
  }

  ghost predicate Traces(events: seq<Event>, sent: seq<Option<Key>>, trace: seq<Snapshot>) {
    && |sent| == |events| && |trace| == |events| + 1
    && forall i: nat :: i < |events| ==> Steps(trace[i], events[i], sent[i], trace[i + 1])
  }

  lemma TraceMore(events: seq<Event>, n: nat, sent: seq<Option<Key>>, trace: seq<Snapshot>, r: Option<Key>, s: Snapshot)
    requires n < |events| && Traces(events[..n], sent, trace) && Steps(trace[n], events[n], r, s)
    ensures Traces(events[..n + 1], sent + [r], trace + [s])
  {
    var sent', trace' := sent + [r], trace + [s];
    forall i: nat | i < n + 1 ensures Steps(trace'[i], events[..n + 1][i], sent'[i], trace'[i + 1]) {
      if i < n {
        assert Steps(trace[i], events[..n][i], sent[i], trace[i + 1]);
      }
    }
  }

  /** After this event the peer may be sent the request again. */
  predicate Clears(e: Event, key: Key, peer: nat) {
    || e == Disconnect(peer)
    || (e.Answer? && e.success && e.key == key)
    || (e.Forget? && e.sha == key.sha)
  }

  ghost predicate Remembered(todo: seq<Request>, todo': seq<Request>, e: Event) {
    forall key, peer :: HasAsked(todo, key, peer) && !Clears(e, key, peer) ==> HasAsked(todo', key, peer)
  }

  /** Nothing from i to j clears. */
  ghost predicate Uncleared(events: seq<Event>, i: nat, j: nat, key: Key, peer: nat) {
    forall k: nat :: i < k < j && k < |events| ==> !Clears(events[k], key, peer)
  }

  /** Event i sends the key to the peer. */
  ghost predicate Sends(events: seq<Event>, sent: seq<Option<Key>>, i: nat, key: Key, peer: nat) {
    i < |events| && i < |sent| && events[i] == Poll(peer) && sent[i] == Some(key)
  }

  /** Between two events that send one request to one peer, one clears. */
  ghost predicate AskedOnce(events: seq<Event>, sent: seq<Option<Key>>) {
    forall i: nat, j: nat, key, peer ::
      i < j && Sends(events, sent, i, key, peer) && Sends(events, sent, j, key, peer) ==> !Uncleared(events, i, j, key, peer)
  }

  /** What was sent and not cleared since is remembered. */
  ghost predicate StillAsked(events: seq<Event>, sent: seq<Option<Key>>, todo: seq<Request>) {
    forall i: nat, key, peer ::
      Sends(events, sent, i, key, peer) && Uncleared(events, i, |sent|, key, peer) ==> HasAsked(todo, key, peer)
  }

  lemma OnceMore(events: seq<Event>, sent: seq<Option<Key>>, r: Option<Key>, todo: seq<Request>, todo': seq<Request>)
    requires |sent| < |events| && AskedOnce(events, sent) && StillAsked(events, sent, todo)
    requires Remembered(todo, todo', events[|sent|])
    requires r.Some? ==> events[|sent|].Poll?
    requires r.Some? ==> !HasAsked(todo, r.value, events[|sent|].peer) && HasAsked(todo', r.value, events[|sent|].peer)
    ensures AskedOnce(events, sent + [r]) && StillAsked(events, sent + [r], todo')
  {
    var n, sent' := |sent|, sent + [r];
    forall i: nat, j: nat, key, peer | i < j && Sends(events, sent', i, key, peer) && Sends(events, sent', j, key, peer)
      ensures !Uncleared(events, i, j, key, peer)
    {
      assert Sends(events, sent, i, key, peer);
      assert j < n ==> Sends(events, sent, j, key, peer);
    }
    forall i: nat, key, peer | Sends(events, sent', i, key, peer) && Uncleared(events, i, n + 1, key, peer)
      ensures HasAsked(todo', key, peer)
    {
      if i < n {
        assert Sends(events, sent, i, key, peer) && Uncleared(events, i, n, key, peer);
        assert !Clears(events[n], key, peer);
      }
    }
  }

  lemma AllAsked(todo: seq<Request>, peer: nat)
    ensures (forall i :: 0 <= i < |todo| ==> peer in todo[i].asked) ==> forall r :: r in todo ==> peer in r.asked
  {
  }

  lemma PollRemembers(todo: seq<Request>, todo': seq<Request>, peer: nat, sent: Option<Key>)
    requires DistinctKeys(todo)
    requires if sent.None? then todo' == todo else exists i :: 0 <= i < |todo'| && Asks(todo, todo', i, peer, sent.value)
    ensures Remembered(todo, todo', Poll(peer))
    ensures sent.Some? ==> !HasAsked(todo, sent.value, peer) && HasAsked(todo', sent.value, peer)
  {
    if sent.Some? {
      var i :| 0 <= i < |todo'| && Asks(todo, todo', i, peer, sent.value);
      forall key, p | HasAsked(todo, key, p) ensures HasAsked(todo', key, p) {
        var r :| r in todo && r.key == key && p in r.asked;
        var k :| 0 <= k < |todo| && todo[k] == r;
        assert todo'[k] in todo';
      }
      assert todo'[i] in todo';
    }
  }

  lemma SameAskedRemembers(todo: seq<Request>, todo': seq<Request>, e: Event)
    requires |todo'| == |todo|
    requires forall i :: 0 <= i < |todo| ==> todo'[i].key == todo[i].key
    requires forall i :: 0 <= i < |todo| ==> todo[i].asked - (if e.Disconnect? then {e.peer} else {}) <= todo'[i].asked
    ensures Remembered(todo, todo', e)
  {
    forall key, p | HasAsked(todo, key, p) && !Clears(e, key, p) ensures HasAsked(todo', key, p) {
      var r :| r in todo && r.key == key && p in r.asked;
      var k :| 0 <= k < |todo| && todo[k] == r;
      assert todo'[k] in todo' && p in todo'[k].asked;
    }
  }

  /** The peer does not disconnect in the first n events. */
  ghost predicate Stays(events: seq<Event>, n: nat, p: nat) {
    forall i: nat :: i < n && i < |events| ==> events[i] != Disconnect(p)
  }

  datatype Event =
    | Want(key: Key)
    | Connect
    | Poll(peer: nat)
    | Answer(peer: nat, key: Key, success: bool)
    | Disconnect(peer: nat)
    | Forget(sha: nat)

  /** Asking for a shard and then forgetting its block costs the peer one of its MaxRequests for good. */
  method AskAndForget(t: TodoState, peer: nat, sha: nat)
    requires t.Valid() && t.todo == [] && peer in t.outstanding && t.outstanding[peer] < MaxRequests
    modifies t
    ensures t.Valid() && t.todo == [] && peer in t.outstanding
    ensures t.outstanding[peer] == old(t.outstanding)[peer] + 1
  {
    AskOne(t, peer, sha);
    t.ForgetAboutBlock(sha);
    FirstMember(t.todo);
  }

  lemma FirstMember(todo: seq<Request>)
    ensures todo == [] || exists r :: r in todo
  {
    if todo != [] {
      assert todo[0] in todo;
    }
  }

  method AskOne(t: TodoState, peer: nat, sha: nat)
    requires t.Valid() && t.todo == [] && peer in t.outstanding && t.outstanding[peer] < MaxRequests
    modifies t
    ensures t.Valid() && |t.todo| == 1 && t.todo[0].key == GetShard(sha, 0)
    ensures t.outstanding == old(t.outstanding)[peer := old(t.outstanding)[peer] + 1]
  {
    WantFirst(t, GetShard(sha, 0));
    var r := t.GetTodoPkt(peer);
    assert r.Some?;
  }

  method WantFirst(t: TodoState, key: Key)
    requires t.Valid() && t.todo == []
    modifies t`todo
    ensures t.Valid() && t.todo == [Request(key, {}, {})]
  {
    assert !HasKey(t.todo, key);
    t.NewRequest(key);
    OneRequest(Request(key, {}, {}));
  }

  /** After MaxRequests of those the peer is starved: there is a question for it, and we wait for
      nothing, but by Run it is not asked again before it disconnects. */
  method StarvedPeer() returns (t: TodoState, peer: nat)
    ensures t.Valid() && t.Starved(peer) && Waiting(t.todo, peer) == 0
    ensures exists i :: 0 <= i < |t.todo| && peer !in t.todo[i].asked
  {
    t := new TodoState();
    assert 0 !in t.outstanding;
    var p := t.AllocPeer();
    peer := p.value;
    for i := 0 to MaxRequests
      invariant fresh(t) && t.Valid() && t.todo == [] && peer in t.outstanding && t.outstanding[peer] == i
    {
      AskAndForget(t, peer, i);
    }
    WantFirst(t, GetBlock(99));
    OneRequest(Request(GetBlock(99), {}, {}));
    assert peer !in t.todo[0].asked;
  }

  lemma OneRequest(r: Request)
    ensures [] + [r] == [r] && forall p :: Waiting([r], p) == One(WaitsFor(r, p))
  {
    forall p ensures Waiting([r], p) == One(WaitsFor(r, p)) {
      WaitingSnoc([], r, p);
      assert [] + [r] == [r];
    }
  }

  /** Keys are distinct, so taking a request out takes out exactly those with its key. */
  lemma RemoveByKey(todo: seq<Request>, i: nat)
    requires i < |todo| && DistinctKeys(todo)
    ensures forall p :: WaitsOn(todo, todo[i].key, p) <==> WaitsFor(todo[i], p)
    ensures RemoveAt(todo, i) == Without(todo, iset{todo[i].key})
  {
    WithoutDropped(todo, i, iset{todo[i].key});
    var rest := RemoveAt(todo, i);
    forall k | 0 <= k < |rest| ensures rest[k].key !in iset{todo[i].key} {
      assert rest[k] == todo[if k < i then k else k + 1];
    }
    WithoutNone(rest, iset{todo[i].key});
  }

  lemma FailedWaiting(todo: seq<Request>, i: nat, peer: nat)
    requires i < |todo| && WaitsFor(todo[i], peer)
    ensures var r := todo[i].(failed := todo[i].failed + {peer});
      forall p :: Waiting(todo[i := r], p) + One(p == peer) == Waiting(todo, p)
  {
    var r := todo[i].(failed := todo[i].failed + {peer});
    forall p ensures Waiting(todo[i := r], p) + One(p == peer) == Waiting(todo, p) {
      WaitingUpdate(todo, i, r, p);
    }
  }

  lemma UpdateKeeps(todo: seq<Request>, i: nat, r: Request, peers: set<nat>)
    requires i < |todo| && DistinctKeys(todo) && WellAsked(todo, peers)
    requires r.key == todo[i].key && r.failed <= r.asked <= peers
    ensures DistinctKeys(todo[i := r]) && WellAsked(todo[i := r], peers)
  {
  }

  lemma RemoveKeeps(todo: seq<Request>, i: nat, peers: set<nat>)
    requires i < |todo| && DistinctKeys(todo) && WellAsked(todo, peers)
    ensures DistinctKeys(RemoveAt(todo, i)) && WellAsked(RemoveAt(todo, i), peers)
    ensures forall k :: 0 <= k < |todo| - 1 ==> RemoveAt(todo, i)[k].key != todo[i].key
  {
    var r := RemoveAt(todo, i);
    assert forall k :: 0 <= k < |r| ==> r[k] == if k < i then todo[k] else todo[k + 1];
  }

  /** Request `i` is the one sent: the peer had not been asked, and now has. */
  ghost predicate Asks(before: seq<Request>, after: seq<Request>, i: nat, peer: nat, key: Key) {
    && i < |before| && before[i].key == key && peer !in before[i].asked
    && (forall k :: 0 <= k < i ==> peer in before[k].asked)
    && after == before[i := before[i].(asked := before[i].asked + {peer})]
  }

  /** A number that nobody has was never asked. */
  lemma {:induction false} NobodyAsked(todo: seq<Request>, peers: set<nat>, p: nat)
    requires WellAsked(todo, peers) && p !in peers
    ensures Waiting(todo, p) == 0
  {
    if todo != [] {
      NobodyAsked(todo[..|todo| - 1], peers, p);
    }
  }

  lemma {:induction false} ForgottenWaiting(todo: seq<Request>, todo': seq<Request>, peer: nat)
    requires |todo'| == |todo| && forall i :: 0 <= i < |todo| ==> todo'[i] == Forgotten(todo[i], peer)
    ensures forall p :: p != peer ==> Waiting(todo', p) == Waiting(todo, p)
  {
    if todo != [] {
      ForgottenWaiting(todo[..|todo| - 1], todo'[..|todo'| - 1], peer);
    }
  }
}
