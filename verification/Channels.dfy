/** Tables of one-shot channels keyed by an id: how both the AgentX master's
    pending requests (crates/netsnmp-agent/src/agentx/master.rs) and the shared
    UDP socket's routes (crates/netsnmp/src/udp_shared.rs) match an incoming
    message to whoever waits for it. */
module Channels {
  import opened Values

  /** A one-shot channel: the key it was opened under, what was sent into it (the
      number of an incoming message), and whether the receiver still exists. */
  datatype Channel<K> = Channel(key: K, inbox: Option<nat>, listening: bool)

  /** `table` maps keys to the channel whose sender is stored there; `log` holds
      the keys of the messages that came in. */
  datatype Hub<K> = Hub(table: map<K, nat>, channels: seq<Channel<K>>, log: seq<K>)

  /** A new channel takes the key; the sender it replaces is dropped. */
  function Open<K>(h: Hub<K>, key: K): Hub<K> {
    h.(table := h.table[key := |h.channels|], channels := h.channels + [Channel(key, None, true)])
  }

  /** Drop whatever sender is stored under the key. */
  function Forget<K>(h: Hub<K>, key: K): Hub<K> {
    h.(table := h.table - {key})
  }

  /** Drop a receiver. */
  function Deafen<K>(h: Hub<K>, c: nat): Hub<K>
    requires c < |h.channels|
  {
    h.(channels := h.channels[c := h.channels[c].(listening := false)])
  }

  /** A message comes in: its sender is taken out of the table and used, in vain
      when the receiver is gone. */
  function Deliver<K(!new)>(h: Hub<K>, key: K): Hub<K>
    requires Keyed(h)
  {
    var logged := h.(log := h.log + [key]);
    if key !in h.table then logged
    else
      var c := h.table[key];
      logged.(table := h.table - {key},
              channels := if h.channels[c].listening then h.channels[c := h.channels[c].(inbox := Some(|h.log|))] else h.channels)
  }

  /** Table entries point to empty channels opened under that key. */
  ghost predicate Keyed<K(!new)>(h: Hub<K>) {
    forall k :: k in h.table ==> h.table[k] < |h.channels| && h.channels[h.table[k]] == Channel(k, None, h.channels[h.table[k]].listening)
  }

  /** Every channel was filled by a message of its own key, and no message filled
      two. */
  ghost predicate Matched<K>(h: Hub<K>) {
    && (forall c :: 0 <= c < |h.channels| && h.channels[c].inbox.Some? ==>
          h.channels[c].inbox.value < |h.log| && h.log[h.channels[c].inbox.value] == h.channels[c].key)
    && (forall c, d :: 0 <= c < d < |h.channels| && h.channels[c].inbox.Some? ==> h.channels[c].inbox != h.channels[d].inbox)
  }

  ghost predicate Sound<K(!new)>(h: Hub<K>) {
    Keyed(h) && Matched(h)
  }

  /** The sender of channel c is in the table. */
  predicate Waited<K(==)>(h: Hub<K>, c: nat) {
    c < |h.channels| && h.channels[c].key in h.table && h.table[h.channels[c].key] == c
  }

  lemma OpenKeepsSound<K(!new)>(h: Hub<K>, key: K)
    requires Sound(h)
    ensures Sound(Open(h, key)) && Waited(Open(h, key), |h.channels|)
  {
  }

  lemma ForgetKeepsSound<K(!new)>(h: Hub<K>, key: K)
    requires Sound(h)
    ensures Sound(Forget(h, key))
  {
  }

  lemma DeafenKeepsSound<K(!new)>(h: Hub<K>, c: nat)
    requires Sound(h) && c < |h.channels|
    ensures Sound(Deafen(h, c))
  {
  }

  lemma DeliverKeepsSound<K(!new)>(h: Hub<K>, key: K)
    requires Sound(h)
    ensures Sound(Deliver(h, key))
  {
    var h' := Deliver(h, key);
    forall c | 0 <= c < |h'.channels| && h'.channels[c].inbox.Some?
      ensures h'.channels[c].inbox.value < |h'.log| && h'.log[h'.channels[c].inbox.value] == h'.channels[c].key
    {
      if h.channels[c].inbox.Some? {
        assert h.log[h.channels[c].inbox.value] == h.channels[c].key;
      }
    }
  }

  /** A message fills the channel whose sender stands under its key, if anyone
      still listens, and changes no other channel. */
  lemma DeliverReaches<K(!new)>(h: Hub<K>, key: K, c: nat)
    requires Sound(h) && c < |h.channels|
    ensures var before, after := h.channels[c], Deliver(h, key).channels[c];
      after == if Waited(h, c) && before.key == key && before.listening then before.(inbox := Some(|h.log|)) else before
    ensures h.channels[c].key == key ==> !Waited(Deliver(h, key), c)
  {
  }

  // ----- Whole runs of one table -----

  datatype Op<K> = Opening(key: K) | Forgetting(key: K) | Deafening(channel: nat) | Delivering(key: K)

  function Apply<K(!new)>(h: Hub<K>, op: Op<K>): Hub<K>
    requires Keyed(h)
  {
    match op
    case Opening(key) => Open(h, key)
    case Forgetting(key) => Forget(h, key)
    case Deafening(c) => if c < |h.channels| then Deafen(h, c) else h
    case Delivering(key) => Deliver(h, key)
  }

  lemma ApplyKeepsSound<K(!new)>(h: Hub<K>, op: Op<K>)
    requires Sound(h)
    ensures Sound(Apply(h, op))
  {
    match op
    case Opening(key) => OpenKeepsSound(h, key);
    case Forgetting(key) => ForgetKeepsSound(h, key);
    case Deafening(c) => if c < |h.channels| { DeafenKeepsSound(h, c); }
    case Delivering(key) => DeliverKeepsSound(h, key);
  }

  /** A channel that was filled or whose sender was dropped stays as it is. */
  lemma SettledChannelStays<K(!new)>(h: Hub<K>, op: Op<K>, c: nat)
    requires Sound(h) && c < |h.channels| && !Waited(h, c)
    ensures var h' := Apply(h, op);
      c < |h'.channels| && !Waited(h', c) && h'.channels[c].key == h.channels[c].key && h'.channels[c].inbox == h.channels[c].inbox
  {
    if op.Delivering? {
      DeliverReaches(h, op.key, c);
    }
  }

  /** Opening a key again drops the sender under it for good. */
  lemma ReopeningSupersedes<K(!new)>(h: Hub<K>, key: K, c: nat)
    requires Sound(h) && Waited(h, c) && h.channels[c].key == key
    ensures !Waited(Open(h, key), c) && Open(h, key).channels[c].inbox.None?
  {
  }

  /** What holds at first and goes with the first cut holds as long as there was
      none. */
  lemma {:induction false} HeldIff(held: nat -> bool, cut: nat -> bool, i: nat, j: nat)
    requires i < j && held(i + 1) && forall k :: i < k < j ==> (held(k + 1) <==> held(k) && !cut(k))
    ensures held(j) <==> forall k :: i < k < j ==> !cut(k)
    decreases j
  {
    if i < j - 1 {
      HeldIff(held, cut, i, j - 1);
      assert held(j) <==> held(j - 1) && !cut(j - 1);
    }
  }

  /** The table as an object. */
  class Router<K(==,!new)> {
    var table: map<K, nat>
    var channels: seq<Channel<K>>
    ghost var log: seq<K>

    ghost function View(): Hub<K>
      reads this
    {
      Hub(table, channels, log)
    }

    constructor ()
      ensures View() == Hub(map[], [], [])
    {
      table, channels, log := map[], [], [];
    }

    /** Insert a sender and hand out the receiver. */
    method Insert(key: K) returns (c: nat)
      modifies this
      ensures c == |old(channels)| && View() == Open(old(View()), key)
    {
      c := |channels|;
      table := table[key := c];
      channels := channels + [Channel(key, None, true)];
    }

    method Remove(key: K)
      modifies this
      ensures View() == Forget(old(View()), key)
    {
      table := table - {key};
    }

    method DropReceiver(c: nat)
      requires c < |channels|
      modifies this
      ensures View() == Deafen(old(View()), c)
    {
      channels := channels[c := channels[c].(listening := false)];
    }

    /** Take the sender out of the table, then send. `message` is the number of
        the incoming message. */
    method Dispatch(key: K, message: nat) returns (routed: bool)
      requires Keyed(View()) && message == |log|
      modifies this
      ensures View() == Deliver(old(View()), key) && routed == (key in old(table))
    {
      routed := key in table;
      if routed {
        var c := table[key];
        table := table - {key};
        if channels[c].listening {
          channels := channels[c := channels[c].(inbox := Some(message))];
        }
      }
      log := log + [key];
    }
  }
}
