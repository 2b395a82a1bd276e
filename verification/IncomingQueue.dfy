/** `IncomingMessageManager`: one linked list of messages per sender, and the ring of senders that have any. */
module IncomingQueue {
  import opened Bytes
  import opened TodoRing

  class IncomingMessage {
    const body: int
    var next: IncomingMessage?

    constructor (body: int)
      ensures this.body == body && next == null
    {
      this.body := body;
      next := null;
    }
  }

  /** The nodes `list`, in this order, are what following `next` from `head` visits. */
  ghost predicate Chain(head: IncomingMessage?, list: seq<IncomingMessage>)
    reads list
  {
    if list == [] then head == null else head == list[0] && Chain(list[0].next, list[1..])
  }

  /** Chain, node by node. */
  ghost predicate Linked(head: IncomingMessage?, list: seq<IncomingMessage>)
    reads list
  {
    && head == (if list == [] then null else list[0])
    && (forall i {:trigger list[i].next} :: 0 <= i < |list| - 1 ==> list[i].next == list[i + 1])
    && (list != [] ==> list[|list| - 1].next == null)
  }

  lemma {:induction false} LinkedIsChain(head: IncomingMessage?, list: seq<IncomingMessage>)
    requires Linked(head, list)
    ensures Chain(head, list)
  {
    if list != [] {
      assert forall i :: 0 <= i < |list| - 1 ==> list[1..][i] == list[i + 1];
      LinkedIsChain(list[0].next, list[1..]);
    }
  }

  /** The list `list` with its head and tail pointers. */
  ghost predicate ListOk(head: IncomingMessage?, tail: IncomingMessage?, list: seq<IncomingMessage>)
    reads list
  {
    && Linked(head, list)
    && tail == (if list == [] then null else list[|list| - 1])
    && Distinct(list)
  }

  ghost function Nodes(lists: seq<seq<IncomingMessage>>): set<IncomingMessage> {
    set s, i | 0 <= s < |lists| && 0 <= i < |lists[s]| :: lists[s][i]
  }

  /** No message is in two lists. */
  ghost predicate Unshared(lists: seq<seq<IncomingMessage>>) {
    forall s, t, i, j :: 0 <= s < t < |lists| && 0 <= i < |lists[s]| && 0 <= j < |lists[t]| ==>
      lists[s][i] != lists[t][j]
  }

  /** A sender is on the to-do list, once, exactly when its list is not empty. */
  ghost predicate OncePerBusySender(ring: seq<nat>, lists: seq<seq<IncomingMessage>>) {
    && Distinct(ring)
    && (forall k :: 0 <= k < |ring| ==> ring[k] < |lists|)
    && (forall s :: 0 <= s < |lists| ==> (s in ring <==> lists[s] != []))
  }

  /** Nothing is lost, repeated or reordered. */
  ghost predicate Accounted(added: seq<seq<IncomingMessage>>, taken: seq<seq<IncomingMessage>>,
                            lists: seq<seq<IncomingMessage>>) {
    |added| == |taken| == |lists| && forall s :: 0 <= s < |lists| ==> added[s] == taken[s] + lists[s]
  }

  lemma AddedToRing(ring: seq<nat>, lists: seq<seq<IncomingMessage>>, sender: nat, msg: IncomingMessage)
    requires OncePerBusySender(ring, lists) && sender < |lists|
    ensures lists[sender] == [] ==> |ring| < |lists|
    ensures OncePerBusySender(ring + (if lists[sender] == [] then [sender] else []),
                              lists[sender := lists[sender] + [msg]])
  {
    if lists[sender] == [] {
      RoomForAbsent(ring, sender, |lists|);
    }
  }

  lemma TakenFromRing(ring: seq<nat>, lists: seq<seq<IncomingMessage>>)
    requires OncePerBusySender(ring, lists) && ring != []
    ensures ring[0] < |lists| && lists[ring[0]] != [] && OncePerBusySender(ring[1..], lists[ring[0] := []])
  {
    assert ring[0] in ring;
    assert forall k :: 0 <= k < |ring[1..]| ==> ring[1..][k] == ring[k + 1];
    assert ring == [ring[0]] + ring[1..];
  }

  lemma AddedKeepsUnshared(lists: seq<seq<IncomingMessage>>, sender: nat, msg: IncomingMessage)
    requires Unshared(lists) && sender < |lists| && msg !in Nodes(lists)
    ensures Unshared(lists[sender := lists[sender] + [msg]])
  {
    assert forall s, i :: 0 <= s < |lists| && 0 <= i < |lists[s]| ==> lists[s][i] in Nodes(lists);
  }

  /** The new message and the last node of its list are in no other sender's list. */
  lemma OnlyOwnTail(lists: seq<seq<IncomingMessage>>, sender: nat, msg: IncomingMessage)
    requires Unshared(lists) && sender < |lists| && msg !in Nodes(lists)
    ensures forall s :: 0 <= s < |lists| ==> msg !in lists[s]
    ensures forall s :: 0 <= s < |lists| && s != sender && lists[sender] != [] ==>
              lists[sender][|lists[sender]| - 1] !in lists[s]
  {
    assert forall s, i :: 0 <= s < |lists| && 0 <= i < |lists[s]| ==> lists[s][i] in Nodes(lists);
  }

  class IncomingMessageManager {
    const nodes: nat
    const heads: array<IncomingMessage?>
    const tails: array<IncomingMessage?>   // the node whose next field the source's tail pointer points at
    const todo: Ring
    ghost var lists: seq<seq<IncomingMessage>>  // what is waiting, by sender
    ghost var added: seq<seq<IncomingMessage>>  // everything ever added, by sender
    ghost var taken: seq<seq<IncomingMessage>>  // everything ever returned by GetMessages, by sender

    /** The lists and their pointers; the ring apart. */
    ghost predicate ListsOk()
      reads this, heads, tails, Nodes(lists)
    {
      && heads.Length == tails.Length == nodes && heads != tails
      && |lists| == |added| == |taken| == nodes
      && (forall s :: 0 <= s < nodes ==> ListOk(heads[s], tails[s], lists[s]))
      && Unshared(lists)
      && Accounted(added, taken, lists)
    }

    ghost predicate Valid()
      reads this, heads, tails, todo, todo.slots, Nodes(lists)
    {
      && ListsOk()
      && todo.Valid() && todo.nodes == nodes
      && OncePerBusySender(todo.Contents(), lists)
    }

    constructor (nodes: nat)
      ensures Valid() && this.nodes == nodes && fresh(heads) && fresh(tails) && fresh(todo) && fresh(todo.slots)
      ensures added == seq(nodes, _ => []) && taken == seq(nodes, _ => [])
    {
      this.nodes := nodes;
      heads := new IncomingMessage?[nodes](_ => null);
      tails := new IncomingMessage?[nodes](_ => null);
      todo := new Ring(nodes);
      lists, added, taken := seq(nodes, _ => []), seq(nodes, _ => []), seq(nodes, _ => []);
    }

    /**
     Appends `msg` to its sender's list. The only node written is the last one of that list: batches
     already handed out are not touched, and the ring never wraps.
     */
    method AddIncomingMessage(sender: nat, msg: IncomingMessage)
      requires Valid() && sender < nodes && msg.next == null && msg !in Nodes(lists)
      modifies this`lists, this`added, heads, tails, todo`newest, todo.slots
      modifies if lists[sender] == [] then {} else {lists[sender][|lists[sender]| - 1]}
      ensures Valid()
      ensures lists == old(lists)[sender := old(lists)[sender] + [msg]]
      ensures added == old(added)[sender := old(added)[sender] + [msg]]
      ensures todo.Contents() == old(todo.Contents()) + if old(lists)[sender] == [] then [sender] else []
    {
      AddedToRing(todo.Contents(), lists, sender, msg);
      var first := LinkMessage(sender, msg);
      if first {
        todo.Push(sender);
      }
    }

    method LinkMessage(sender: nat, msg: IncomingMessage) returns (first: bool)
      requires ListsOk() && sender < nodes && msg.next == null && msg !in Nodes(lists)
      modifies this`lists, this`added, heads, tails
      modifies if lists[sender] == [] then {} else {lists[sender][|lists[sender]| - 1]}
      ensures ListsOk()
      ensures first <==> old(lists)[sender] == []
      ensures lists == old(lists)[sender := old(lists)[sender] + [msg]]
      ensures added == old(added)[sender := old(added)[sender] + [msg]]
    {
      ghost var was := lists[sender];
      assert ListOk(heads[sender], tails[sender], was);
      AddedKeepsUnshared(lists, sender, msg);
      OnlyOwnTail(lists, sender, msg);
      first := heads[sender] == null;
      if first {
        heads[sender] := msg;
      } else {
        tails[sender].next := msg;
      }
      tails[sender] := msg;
      lists := lists[sender := was + [msg]];
      added := added[sender := added[sender] + [msg]];
      assert ListOk(heads[sender], tails[sender], was + [msg]);
      forall s | 0 <= s < nodes
        ensures ListOk(heads[s], tails[s], lists[s])
      {
        if s != sender {
          assert old(ListOk(heads[s], tails[s], lists[s]));
          assert heads[s] == old(heads[s]) && tails[s] == old(tails[s]) && lists[s] == old(lists)[s];
          assert forall m: IncomingMessage :: m in lists[s] ==> m.next == old(m.next);
        }
      }
    }

    /** Takes the whole list of the sender at the front of the ring; None when nothing waits. */
    method GetMessages() returns (sender: Option<nat>, batch: IncomingMessage?)
      requires Valid()
      modifies this`lists, this`taken, heads, tails, todo`oldest
      ensures Valid() && added == old(added)
      ensures sender.None? <==> (forall s :: 0 <= s < nodes ==> old(lists)[s] == [])
      ensures sender.None? ==> batch == null && lists == old(lists) && taken == old(taken)
      ensures sender.Some? ==>
        && sender.value < nodes
        && old(todo.Contents()) == [sender.value] + todo.Contents()
        && batch != null && Chain(batch, old(lists)[sender.value])
        && lists == old(lists)[sender.value := []]
        && taken == old(taken)[sender.value := old(taken)[sender.value] + old(lists)[sender.value]]
    {
      todo.EmptyMeansNoEntries();
      if todo.IsEmpty() {
        return None, null;
      }
      TakenFromRing(todo.Contents(), lists);
      var s := todo.Pop();
      batch := UnlinkAll(s);
      sender := Some(s);
    }

    method UnlinkAll(s: nat) returns (batch: IncomingMessage?)
      requires ListsOk() && s < nodes
      modifies this`lists, this`taken, heads, tails
      ensures ListsOk() && Chain(batch, old(lists)[s])
      ensures lists == old(lists)[s := []]
      ensures taken == old(taken)[s := old(taken)[s] + old(lists)[s]]
    {
      batch := heads[s];
      assert ListOk(heads[s], tails[s], lists[s]);
      LinkedIsChain(batch, lists[s]);
      heads[s] := null;
      tails[s] := null;
      taken := taken[s := taken[s] + lists[s]];
      lists := lists[s := []];
      forall t | 0 <= t < nodes
        ensures ListOk(heads[t], tails[t], lists[t])
      {
        assert old(ListOk(heads[t], tails[t], lists[t]));
      }
    }
  }

  /** The loop of `handler_thread_loop`: every message of a batch is handled once, in order. */
  method RunBatch(batch: IncomingMessage?, ghost list: seq<IncomingMessage>) returns (handled: seq<IncomingMessage>)
    requires Chain(batch, list)
    ensures handled == list
  {
    handled := [];
    var current := batch;
    ghost var rest := list;
    while current != null
      invariant Chain(current, rest) && handled + rest == list
      decreases |rest|
    {
      var next := current.next;
      handled := handled + [current];
      current, rest := next, rest[1..];
    }
  }
}
