/** Blocking clients on keys, unblocking them, and serving the clients of keys that became ready. */
module BlockedServer {
  import opened Wrappers
  import opened BlockedIndex
  import opened BlockedService

  /** Releasing a client from a key takes exactly its node off the list. */
  lemma ReleasedList(b: Lists, counts: Counts, held: Held, want: set<Client>, next: nat, c: Client, k: Key)
    requires Agree(b, counts, held, want, next) && k in KeysOf(held, c)
    ensures k in b && ListAt(Released(b, k, KeysOf(held, c)[k]), k) == Without(b[k], c)
    ensures forall k1 | k1 != k :: ListAt(Released(b, k, KeysOf(held, c)[k]), k1) == ListAt(b, k1)
  {
    var n := Node(KeysOf(held, c)[k], c);
    var before, after := UnlinkAt(b[k], n, next);
    forall m: Node | m in before + after
      ensures m.client != c
    {
      assert m in b[k] && m != n;
      assert KeysOf(held, m.client)[k] == m.id;
    }
    WithoutNode(before, n, after);
    ReleasedAt(b, k, n.id);
    hide *;
  }

  lemma ReleasedAt(b: Lists, k: Key, id: nat)
    requires k in b
    ensures ListAt(Released(b, k, id), k) == Unlinked(b[k], id)
    ensures forall k1 | k1 != k :: ListAt(Released(b, k, id), k1) == ListAt(b, k1)
  {
    hide Unlinked;
  }

  /** A client that does not wait for a key is not in its list. */
  lemma NotListed(b: Lists, counts: Counts, held: Held, want: set<Client>, next: nat, c: Client, k: Key)
    requires Agree(b, counts, held, want, next) && k !in KeysOf(held, c)
    ensures Without(ListAt(b, k), c) == ListAt(b, k)
  {
    WithoutAbsent(ListAt(b, k), c);
  }

  // ---------------------------------------------------------------- counters of blocked clients

  function OfKind(kinds: map<Client, BType>, t: BType): set<Client> {
    set c | c in kinds && kinds[c] == t
  }

  function Ordinary(kinds: map<Client, BType>, modules: set<Client>): set<Client> {
    set c | c in kinds && c !in modules
  }

  ghost predicate CountersAgree(kinds: map<Client, BType>, modules: set<Client>, blocked: int, byType: map<BType, int>) {
    && blocked == |Ordinary(kinds, modules)|
    && forall t: BType :: t in byType && byType[t] == |OfKind(kinds, t)|
  }

  lemma KindMember(kinds: map<Client, BType>, t: BType, d: Client)
    ensures d in OfKind(kinds, t) <==> d in kinds && kinds[d] == t
  {
  }

  lemma KindWith(kinds: map<Client, BType>, c: Client, t: BType, u: BType)
    requires c !in kinds
    ensures |OfKind(kinds[c := t], u)| == |OfKind(kinds, u)| + if u == t then 1 else 0
  {
    hide OfKind;
    var now := kinds[c := t];
    var added := if u == t then {c} else {};
    forall d
      ensures d in OfKind(now, u) <==> d in OfKind(kinds, u) + added
    {
      KindMember(now, u, d);
      KindMember(kinds, u, d);
    }
    KindMember(kinds, u, c);
    assert OfKind(now, u) == OfKind(kinds, u) + added;
  }

  lemma KindsWith(kinds: map<Client, BType>, c: Client, t: BType)
    requires c !in kinds
    ensures forall u :: |OfKind(kinds[c := t], u)| == |OfKind(kinds, u)| + if u == t then 1 else 0
  {
    hide OfKind;
    forall u
      ensures |OfKind(kinds[c := t], u)| == |OfKind(kinds, u)| + if u == t then 1 else 0
    {
      KindWith(kinds, c, t, u);
    }
  }

  lemma OrdinaryWith(kinds: map<Client, BType>, modules: set<Client>, c: Client, t: BType)
    requires c !in kinds
    ensures |Ordinary(kinds[c := t], modules)| == |Ordinary(kinds, modules)| + if c in modules then 0 else 1
  {
    var now := kinds[c := t];
    assert c in modules ==> Ordinary(now, modules) == Ordinary(kinds, modules);
    assert c !in modules ==> Ordinary(now, modules) == Ordinary(kinds, modules) + {c};
  }

  lemma CountBlocked(kinds: map<Client, BType>, modules: set<Client>, blocked: int, byType: map<BType, int>, c: Client, t: BType)
    requires CountersAgree(kinds, modules, blocked, byType) && c !in kinds
    ensures CountersAgree(kinds[c := t], modules, if c in modules then blocked else blocked + 1, byType[t := byType[t] + 1])
  {
    KindsWith(kinds, c, t);
    OrdinaryWith(kinds, modules, c, t);
    hide OfKind, Ordinary;
  }

  lemma CountUnblocked(kinds: map<Client, BType>, modules: set<Client>, blocked: int, byType: map<BType, int>, c: Client)
    requires CountersAgree(kinds, modules, blocked, byType) && c in kinds
    ensures CountersAgree(kinds - {c}, modules, if c in modules then blocked else blocked - 1,
                          byType[kinds[c] := byType[kinds[c]] - 1])
  {
    var now, t := kinds - {c}, kinds[c];
    assert now[c := t] == kinds;
    KindsWith(now, c, t);
    OrdinaryWith(now, modules, c, t);
    hide OfKind, Ordinary;
  }

  /** Clients that are not blocked wait for nothing. */
  ghost predicate Idle(kinds: map<Client, BType>, held: Held, wants: set<Client>) {
    forall c | c !in kinds :: KeysOf(held, c) == map[] && c !in wants
  }

  /** The clients with CLIENT_UNBLOCKED are the ones that are queued, each of them once. */
  ghost predicate QueueAgrees(queued: set<Client>, unblocked: seq<Client>) {
    NoDuplicates(unblocked) && forall c :: c in queued <==> c in unblocked
  }

  /** Every ready key is queued once. */
  ghost predicate ReadyAgrees(dict: set<Key>, list: seq<Key>) {
    NoDuplicates(list) && forall k :: k in dict <==> k in list
  }

  class Server {
    const modules: set<Client>          // clients with CLIENT_MODULE
    var blockingKeys: Lists             // db->blocking_keys
    var onNoKey: Counts                 // db->blocking_keys_unblock_on_nokey
    var held: Held                      // bstate.keys of every client
    var wants: set<Client>              // clients with bstate.unblock_on_nokey
    var kinds: map<Client, BType>       // bstate.btype of the clients with CLIENT_BLOCKED
    var pending: set<Client>            // clients with CLIENT_PENDING_COMMAND
    var nodes: nat                      // the identity of the next list node
    var blockedClients: int
    var blockedByType: map<BType, int>
    var readyDict: set<Key>             // db->ready_keys
    var readyList: seq<Key>             // server.ready_keys
    ghost var inHand: seq<Key>          // the part of the former server.ready_keys that is still to be handled
    var queued: set<Client>             // clients with CLIENT_UNBLOCKED
    var unblocked: seq<Client>          // server.unblocked_clients

    /** What service changes: the rest of the fields follows from it, or is not touched. */
    ghost function View(): State
      reads this
    {
      State(blockingKeys, held, kinds, wants, pending, unblocked, readyDict)
    }

    ghost predicate IndexValid()
      reads this
    {
      Agree(blockingKeys, onNoKey, held, wants, nodes)
    }

    ghost predicate Valid()
      reads this
    {
      && IndexValid()
      && Idle(kinds, held, wants)
      && CountersAgree(kinds, modules, blockedClients, blockedByType)
      && ReadyAgrees(readyDict, inHand + readyList)
      && QueueAgrees(queued, unblocked)
    }

    constructor (modules: set<Client>)
      ensures Valid() && kinds == map[] && readyList == [] && inHand == [] && this.modules == modules
    {
      this.modules := modules;
      blockingKeys, onNoKey, held, wants, kinds, pending, nodes := map[], map[], map[], {}, map[], {}, 0;
      blockedClients, blockedByType := 0, map[LIST := 0, ZSET := 0, STREAM := 0, MODULE := 0];
      readyDict, readyList, inHand, queued, unblocked := {}, [], [], {}, [];
      new;
      assert Ordinary(kinds, modules) == {};
      forall t: BType
        ensures t in blockedByType && blockedByType[t] == 0 && OfKind(kinds, t) == {}
      {
        match t case LIST => case ZSET => case STREAM => case MODULE =>
      }
    }

    // -------------------------------------------------------------- blocking

    /** The loop of blockForKeys; `wanted` says whether the flag of the client is about to be set. */
    method AddToKeys(c: Client, keys: seq<Key>, wanted: bool)
      requires Agree(blockingKeys, onNoKey, held, Wanted(wants, c, wanted), nodes)
      requires KeysOf(held, c) == map[]
      modifies this`blockingKeys, this`onNoKey, this`held, this`nodes
      ensures Agree(blockingKeys, onNoKey, held, Wanted(wants, c, wanted), nodes)
      ensures WaitsFor(old(blockingKeys), old(held), blockingKeys, held, c, keys)
    {
      hide *;
      ghost var b0, held0 := blockingKeys, held;
      WaitsNone(b0, held0, c);
      assert keys[..0] == [];
      for j := 0 to |keys|
        invariant Agree(blockingKeys, onNoKey, held, Wanted(wants, c, wanted), nodes)
        invariant WaitsFor(b0, held0, blockingKeys, held, c, keys[..j])
      {
        var k := keys[j];
        assert keys[..j + 1] == keys[..j] + [k];
        if k in KeysOf(held, c) {
          WaitsAlready(b0, held0, blockingKeys, held, c, keys[..j], k);
        } else {
          AddKeeps(blockingKeys, onNoKey, held, Wanted(wants, c, wanted), nodes, c, k);
          WaitsMore(b0, held0, blockingKeys, held, c, keys[..j], k, nodes);
          WantedHas(wants, c, wanted);
          blockingKeys := Added(blockingKeys, k, Node(nodes, c));
          held := held[c := KeysOf(held, c)[k := nodes]];
          nodes := nodes + 1;
          if wanted {
            onNoKey := CountUp(onNoKey, k);
          }
        }
      }
      assert keys[..|keys|] == keys;
    }

    /** blockClient. */
    method BlockClient(c: Client, btype: BType)
      requires CountersAgree(kinds, modules, blockedClients, blockedByType) && c !in kinds
      modifies this`kinds, this`blockedClients, this`blockedByType
      ensures CountersAgree(kinds, modules, blockedClients, blockedByType) && kinds == old(kinds)[c := btype]
    {
      hide CountersAgree;
      AllCounted(kinds, modules, blockedClients, blockedByType, btype);
      CountBlocked(kinds, modules, blockedClients, blockedByType, c, btype);
      kinds := kinds[c := btype];
      if c !in modules {
        blockedClients := blockedClients + 1;
      }
      blockedByType := blockedByType[btype := blockedByType[btype] + 1];
    }

    /** blockForKeys, for a client that is not blocked. */
    method BlockForKeys(c: Client, btype: BType, keys: seq<Key>, unblockOnNoKey: bool)
      requires Valid() && c !in kinds
      modifies this`blockingKeys, this`onNoKey, this`held, this`nodes, this`wants, this`pending
      modifies this`kinds, this`blockedClients, this`blockedByType
      ensures Valid()
      ensures WaitsFor(old(blockingKeys), old(held), blockingKeys, held, c, keys)
      ensures kinds == old(kinds)[c := btype] && wants == Wanted(old(wants), c, unblockOnNoKey)
      ensures pending == if btype == MODULE then old(pending) else old(pending) + {c}
    {
      hide Agree, KeysOf, CountersAgree, QueueAgrees, WaitsFor, Wanted, ReadyAgrees, Idle;
      IdleClient(kinds, held, wants, c);
      FlagSet(blockingKeys, onNoKey, held, wants, nodes, c, unblockOnNoKey);
      ghost var b0, held0 := blockingKeys, held;
      AddToKeys(c, keys, unblockOnNoKey);
      WaitsOnly(b0, held0, blockingKeys, held, c, keys, kinds, wants, unblockOnNoKey, btype);
      wants := Wanted(wants, c, unblockOnNoKey);
      if btype != MODULE {
        pending := pending + {c};
      }
      BlockClient(c, btype);
    }

    // -------------------------------------------------------------- unblocking

    /** releaseBlockedEntry, with the entry of the client's own map left to the caller; `rest` is that map. */
    method ReleaseBlockedEntry(c: Client, k: Key, pos: nat, ghost rest: map<Key, nat>)
      requires Agree(blockingKeys, onNoKey, held[c := rest], wants, nodes) && k in rest && rest[k] == pos
      modifies this`blockingKeys, this`onNoKey
      ensures Agree(blockingKeys, onNoKey, held[c := rest - {k}], wants, nodes)
      ensures ListAt(blockingKeys, k) == Without(old(ListAt(blockingKeys, k)), c)
      ensures forall k1 | k1 != k :: ListAt(blockingKeys, k1) == old(ListAt(blockingKeys, k1))
    {
      hide *;
      ReleaseReady(blockingKeys, onNoKey, held, wants, nodes, c, k, rest);
      var l := Unlinked(blockingKeys[k], pos);
      ReleaseResult(blockingKeys, onNoKey, k, pos, c in wants, l);
      if l == [] {
        blockingKeys := blockingKeys - {k};
        onNoKey := onNoKey - {k};
      } else {
        blockingKeys := blockingKeys[k := l];
        if c in wants {
          if onNoKey[k] == 1 {
            onNoKey := onNoKey - {k};
          } else {
            onNoKey := onNoKey[k := onNoKey[k] - 1];
          }
        }
      }
    }

    /** unblockClientWaitingData. */
    method UnblockClientWaitingData(c: Client)
      requires IndexValid()
      modifies this`blockingKeys, this`onNoKey, this`held
      ensures IndexValid() && KeysOf(held, c) == map[]
      ensures forall d | d != c :: KeysOf(held, d) == old(KeysOf(held, d))
      ensures forall k :: ListAt(blockingKeys, k) == Without(old(ListAt(blockingKeys, k)), c)
    {
      hide Agree, KeysOf, Without, ListAt;
      ghost var b0 := blockingKeys;
      var todo := KeysOf(held, c);
      HeldItself(held, c, blockingKeys, onNoKey, wants, nodes);
      ghost var all := todo;
      while todo.Keys != {}
        invariant held == old(held) && Agree(blockingKeys, onNoKey, held[c := todo], wants, nodes)
        invariant forall k :: ListAt(blockingKeys, k) ==
                    if k in all && k !in todo then Without(ListAt(b0, k), c) else ListAt(b0, k)
        decreases todo.Keys
      {
        var k :| k in todo;
        ReleaseBlockedEntry(c, k, todo[k], todo);
        todo := todo - {k};
      }
      assert todo == map[];
      forall k
        ensures ListAt(blockingKeys, k) == Without(ListAt(b0, k), c)
      {
        if k !in all {
          NotListed(b0, old(onNoKey), held, wants, nodes, c, k);
        }
      }
      OthersKeep(held, c);
      held := held[c := map[]];
    }

    method QueueClientForReprocessing(c: Client)
      requires QueueAgrees(queued, unblocked)
      modifies this`queued, this`unblocked
      ensures QueueAgrees(queued, unblocked)
      ensures c in unblocked && unblocked == old(unblocked) + if c in old(unblocked) then [] else [c]
    {
      if c !in queued {
        queued := queued + {c};
        unblocked := unblocked + [c];
      }
    }

    /** The counters and the flag CLIENT_BLOCKED in unblockClient. */
    method ClearBlocked(c: Client)
      requires CountersAgree(kinds, modules, blockedClients, blockedByType) && c in kinds
      modifies this`kinds, this`blockedClients, this`blockedByType
      ensures CountersAgree(kinds, modules, blockedClients, blockedByType) && kinds == old(kinds) - {c}
    {
      hide CountersAgree;
      AllCounted(kinds, modules, blockedClients, blockedByType, kinds[c]);
      CountUnblocked(kinds, modules, blockedClients, blockedByType, c);
      if c !in modules {
        blockedClients := blockedClients - 1;
      }
      blockedByType := blockedByType[kinds[c] := blockedByType[kinds[c]] - 1];
      kinds := kinds - {c};
    }

    /** unblockClient, for the kinds of clients that wait for keys. */
    method UnblockClient(c: Client, queueForReprocessing: bool)
      requires Valid() && c in kinds
      modifies this`blockingKeys, this`onNoKey, this`held, this`wants
      modifies this`kinds, this`blockedClients, this`blockedByType, this`queued, this`unblocked
      ensures Valid()
      ensures KeysOf(held, c) == map[] && kinds == old(kinds) - {c} && wants == old(wants) - {c}
      ensures forall k :: ListAt(blockingKeys, k) == Without(old(ListAt(blockingKeys, k)), c)
      ensures forall d | d != c :: KeysOf(held, d) == old(KeysOf(held, d))
      ensures unblocked == old(unblocked) + if queueForReprocessing && c !in old(unblocked) then [c] else []
    {
      hide Agree, KeysOf, CountersAgree, QueueAgrees, Without, ListAt, ReadyAgrees, Idle;
      ghost var held0 := held;
      UnblockClientWaitingData(c);
      FlagCleared(blockingKeys, onNoKey, held, wants, nodes, c);
      StaysIdle(kinds, held0, held, wants, c);
      ClearBlocked(c);
      wants := wants - {c};
      if queueForReprocessing {
        QueueClientForReprocessing(c);
      }
    }

    // -------------------------------------------------------------- keys that become ready

    /** signalKeyAsReadyLogic: a key that concerns some blocked client is queued, and no key is queued twice. */
    method SignalKeyAsReady(k: Key, keyType: KeyType, deleted: bool)
      requires Valid()
      modifies this`readyDict, this`readyList
      ensures Valid() && old(readyDict) <= readyDict <= old(readyDict) + {k}
      ensures readyList == old(readyList) || readyList == old(readyList) + [k]
      ensures (exists c :: Concerns(blockingKeys, kinds, wants, k, keyType, deleted, c)) ==> k in readyDict
    {
      hide Agree, CountersAgree, QueueAgrees, ReadyAgrees, Idle, Concerns;
      ConcernIsSeen(blockingKeys, onNoKey, held, wants, nodes, kinds, modules, blockedClients, blockedByType,
                    k, keyType, deleted);
      if keyType.None? {
        return;
      }
      AllCounted(kinds, modules, blockedClients, blockedByType, keyType.value);
      AllCounted(kinds, modules, blockedClients, blockedByType, MODULE);
      if blockedByType[keyType.value] == 0 && blockedByType[MODULE] == 0 {
        return;
      }
      if deleted {
        if k !in onNoKey {
          return;
        }
      } else {
        if k !in blockingKeys {
          return;
        }
      }
      if k in readyDict {
        return;
      }
      ReadyOnce(readyDict, inHand + readyList, k);
      assert inHand + (readyList + [k]) == inHand + readyList + [k];
      readyDict := readyDict + {k};
      readyList := readyList + [k];
    }

    /** What the command of a client does when it is processed again. */
    method Reexecute(c: Client, outcome: Outcome)
      requires Valid() && c !in kinds
      modifies this`blockingKeys, this`onNoKey, this`held, this`nodes, this`wants, this`pending
      modifies this`kinds, this`blockedClients, this`blockedByType, this`readyDict, this`readyList
      ensures Valid() && Reexecuted(old(View()), View(), c, outcome)
    {
      hide Agree, KeysOf, CountersAgree, QueueAgrees, ReadyAgrees, Idle, Concerns, ListAt, WaitsFor, Signalled, Wanted;
      ghost var ready0 := readyDict;
      SignalledNone(blockingKeys, kinds, wants, ready0);
      assert outcome.signals[..0] == [];
      for i := 0 to |outcome.signals|
        invariant Valid() && View() == old(View()).(ready := readyDict)
        invariant Signalled(blockingKeys, kinds, wants, outcome.signals[..i], ready0, readyDict)
      {
        var g := outcome.signals[i];
        ghost var ready := readyDict;
        SignalKeyAsReady(g.key, g.keyType, g.deleted);
        SignalledOn(blockingKeys, kinds, wants, outcome.signals[..i], g, ready0, ready, readyDict);
        assert outcome.signals[..i + 1] == outcome.signals[..i] + [g];
      }
      assert outcome.signals[..|outcome.signals|] == outcome.signals;
      if outcome.reblock.Some? {
        var request := outcome.reblock.value;
        BlockForKeys(c, request.btype, request.keys, request.onNoKey);
      }
    }

    /** The first step of unblockClientOnKey. */
    method LeaveKey(c: Client, k: Key)
      requires Valid() && k in KeysOf(held, c) && c in kinds
      modifies this`blockingKeys, this`onNoKey, this`held
      ensures Valid()
      ensures ListAt(blockingKeys, k) == Without(old(ListAt(blockingKeys, k)), c)
      ensures forall k1 | k1 != k :: ListAt(blockingKeys, k1) == old(ListAt(blockingKeys, k1))
      ensures forall d | d != c :: KeysOf(held, d) == old(KeysOf(held, d))
    {
      hide Agree, KeysOf, CountersAgree, QueueAgrees, ReadyAgrees, Idle, ListAt, Without;
      ghost var held0 := held;
      HeldItself(held, c, blockingKeys, onNoKey, wants, nodes);
      ReleaseBlockedEntry(c, k, KeysOf(held, c)[k], KeysOf(held, c));
      OthersHold(held, c, KeysOf(held, c) - {k});
      held := held[c := KeysOf(held, c) - {k}];
      IdleStays(kinds, held0, held, wants, c);
    }

    /** unblockClientOnKey: the client leaves all lists, and its command is processed again. */
    method UnblockClientOnKey(c: Client, k: Key, outcome: Outcome)
      requires Valid() && k in KeysOf(held, c) && c in kinds && kinds[c] != MODULE
      modifies this`blockingKeys, this`onNoKey, this`held, this`nodes, this`wants, this`pending
      modifies this`kinds, this`blockedClients, this`blockedByType, this`readyDict, this`readyList
      modifies this`queued, this`unblocked
      ensures Valid() && ClientServed(old(View()), View(), c, outcome, modules)
    {
      hide Agree, KeysOf, CountersAgree, QueueAgrees, ReadyAgrees, Idle, ListAt, Without, ClientServed, ProcessedAgain;
      ghost var s, b0 := View(), blockingKeys;
      LeaveKey(c, k);
      ghost var b1 := blockingKeys;
      UnblockClient(c, false);
      ReleasedTwice(b0, b1, blockingKeys, c, k);
      ghost var m := View();
      assert Left(s, m, c);
      hide Left;
      if c in pending {
        ProcessAgain(c, outcome);
      }
      ServedAfter(s, m, View(), c, outcome, modules);
    }

    method ProcessAgain(c: Client, outcome: Outcome)
      requires Valid() && c !in kinds
      modifies this`blockingKeys, this`onNoKey, this`held, this`nodes, this`wants, this`pending
      modifies this`kinds, this`blockedClients, this`blockedByType, this`readyDict, this`readyList
      modifies this`queued, this`unblocked
      ensures Valid() && ProcessedAgain(old(View()), View(), c, outcome, modules)
    {
      hide Agree, KeysOf, CountersAgree, QueueAgrees, ReadyAgrees, Idle, WaitsFor, Signalled, Wanted;
      pending := pending - {c};
      Reexecute(c, outcome);
      if c !in kinds {
        if c !in modules {
          QueueClientForReprocessing(c);
        }
      }
    }

    /** Serves client `i` of the list that `k` had; the list is now `pre`, the rest of that list, `post`. */
    method ServeOne(k: Key, receiver: Client, outcome: Outcome, ghost pre: seq<Node>, ghost l0: seq<Node>, ghost i: nat,
        ghost post: seq<Node>, ghost kinds0: map<Client, BType>, ghost wants0: set<Client>) returns (ghost post1: seq<Node>)
      requires Valid() && i < |l0| && receiver == l0[i].client && receiver in kinds && kinds[receiver] != MODULE
      requires ListAt(blockingKeys, k) == pre + l0[i..] + post
      requires StillWaiting(l0, i, kinds0, kinds, wants0, wants)
      modifies this`blockingKeys, this`onNoKey, this`held, this`nodes, this`wants, this`pending
      modifies this`kinds, this`blockedClients, this`blockedByType, this`readyDict, this`readyList
      modifies this`queued, this`unblocked
      ensures Valid() && ListAt(blockingKeys, k) == pre + l0[i + 1..] + post1
      ensures StillWaiting(l0, i + 1, kinds0, kinds, wants0, wants)
      ensures ClientServed(old(View()), View(), receiver, outcome, modules)
    {
      hide Agree, KeysOf, CountersAgree, QueueAgrees, ReadyAgrees, Idle, ListAt, Without, Moved, OthersSame, StillWaiting,
           ClientServed;
      ListOf(blockingKeys, onNoKey, held, wants, nodes, kinds, k);
      OthersDiffer(pre, l0, i, post, kinds, wants);
      ghost var kinds1, wants1 := kinds, wants;
      UnblockClientOnKey(receiver, k, outcome);
      ServedMoves(old(View()), View(), receiver, outcome, modules);
      post1 := MovedWithin(pre, l0, i, post, ListAt(blockingKeys, k));
      WaitingOn(l0, i, kinds0, kinds1, kinds, wants0, wants1, wants);
    }

    /** handleClientsBlockedOnKey. The iterator takes its next node before the client at the current one is
        served; `founds` says how the key is found each time, `outcomes` what the commands do. `states` are
        the states between the clients. */
    method HandleClientsBlockedOnKey(k: Key, founds: seq<Found>, outcomes: seq<Outcome>)
        returns (served: seq<Client>, ghost states: seq<State>)
      requires Valid() && |ListAt(blockingKeys, k)| <= |founds| && |ListAt(blockingKeys, k)| <= |outcomes|
      modifies this`blockingKeys, this`onNoKey, this`held, this`nodes, this`wants, this`pending
      modifies this`kinds, this`blockedClients, this`blockedByType, this`readyDict, this`readyList
      modifies this`queued, this`unblocked
      ensures Valid()
      ensures var l := old(ListAt(blockingKeys, k));
        && served == Served(l, founds, old(kinds), old(wants), |l|)
        && Pass(states, l, founds, outcomes, modules, |l|) && states[0] == old(View()) && states[|l|] == View()
        && Effect(old(View()), View(), l, founds, outcomes, modules, |l|)
        && ServedAreDue(l, founds, old(kinds), old(wants), |l|, served)
    {
      hide Agree, KeysOf, CountersAgree, QueueAgrees, ReadyAgrees, Idle, ListAt, Without, Moved, OthersSame, IndexOf,
           Served, StillWaiting, Matches, LookedAt, Effect, ServedAreDue;
      ghost var l0, kinds0, wants0 := ListAt(blockingKeys, k), kinds, wants;
      served, states := [], [View()];
      ServedNobody(l0, founds, kinds0, wants0);
      ListOf(blockingKeys, onNoKey, held, wants, nodes, kinds, k);
      if k !in blockingKeys {
        PassEffect(states, l0, founds, outcomes, modules, 0);
        ServedIffDue(l0, founds, kinds0, wants0, 0);
        return;
      }
      var count, i := |blockingKeys[k]|, 0;
      var next := Some(blockingKeys[k][0].id);
      ghost var pre: seq<Node>, post: seq<Node> := [], [];
      assert [] + l0[0..] + [] == l0;
      while next.Some? && i < count
        invariant i <= count == |l0| && Valid()
        invariant ListAt(blockingKeys, k) == pre + l0[i..] + post
        invariant i < count ==> next == Some(l0[i].id)
        invariant StillWaiting(l0, i, kinds0, kinds, wants0, wants)
        invariant served == Served(l0, founds, kinds0, wants0, i)
        invariant Pass(states, l0, founds, outcomes, modules, i) && states[0] == old(View()) && states[i] == View()
      {
        ListOf(blockingKeys, onNoKey, held, wants, nodes, kinds, k);
        AtIterator(blockingKeys, onNoKey, held, wants, nodes, k, pre, l0, i, post);
        hide *;
        Waiting(l0, i, kinds0, kinds, wants0, wants);
        ServedNext(l0, founds, kinds0, wants0, i);
        var l := blockingKeys[k];
        var at := IndexOf(l, next.value);
        var receiver := l[at].client;
        next := if at + 1 < |l| then Some(l[at + 1].id) else None;
        assert i + 1 < count ==> next == Some(l0[i + 1].id);
        if Matches(founds[i], kinds[receiver], receiver in wants) && kinds[receiver] != MODULE {
          post := ServeOne(k, receiver, outcomes[i], pre, l0, i, post, kinds0, wants0);
          LookedServing(states[i], View(), receiver, founds[i], outcomes[i], modules);
          served := served + [receiver];
        } else {
          LookedPassing(states[i], receiver, founds[i], outcomes[i], modules);
          WaitingOnward(l0, i, kinds0, kinds, wants0, wants);
          assert pre + l0[i..] + post == (pre + [l0[i]]) + l0[i + 1..] + post;
          pre := pre + [l0[i]];
        }
        PassOn(states, View(), l0, founds, outcomes, modules, i);
        states := states + [View()];
        i := i + 1;
      }
      WaitingOnce(l0, i, kinds0, kinds, wants0, wants);
      PassEffect(states, l0, founds, outcomes, modules, i);
      ServedIffDue(l0, founds, kinds0, wants0, i);
    }

    /** One round of handleClientsBlockedOnKeys: the ready keys so far, in the order in which they were
        signalled; keys signalled meanwhile wait for the next round. `found` and `outcome` say what the
        environment does at the i-th client of the j-th key. `turns` are the states of each key's turn. */
    method HandleRound(found: (nat, nat) -> Found, outcome: (nat, nat) -> Outcome)
        returns (served: seq<seq<Client>>, ghost turns: seq<seq<State>>)
      requires Valid() && inHand == []
      modifies this
      ensures Valid() && inHand == []
      ensures Round(old(View()), View(), old(readyList), found, outcome, modules, turns, served, |old(readyList)|)
    {
      hide Agree, KeysOf, CountersAgree, QueueAgrees, ReadyAgrees, Idle, Round, Turn;
      var l := readyList;
      ghost var s := View();
      readyList := [];
      inHand := l;
      served, turns := [], [];
      assert [] + l == l == l + [];
      RoundOfNothing(s, l, found, outcome, modules);
      hide *;
      for j := 0 to |l|
        invariant Valid() && inHand == l[j..] && Round(s, View(), l, found, outcome, modules, turns, served, j)
      {
        assert l[j..] == [l[j]] + l[j + 1..];
        ghost var m := View();
        var clients, states := TakeTurn(l[j], j, found, outcome);
        RoundOn(s, m, View(), l, found, outcome, modules, turns, states, served, clients, j);
        served, turns := served + [clients], turns + [states];
      }
    }

    /** The next key leaves the dictionary, so that it can be signalled again, and its clients are served. */
    method TakeTurn(k: Key, j: nat, found: (nat, nat) -> Found, outcome: (nat, nat) -> Outcome)
        returns (served: seq<Client>, ghost states: seq<State>)
      requires Valid() && inHand != [] && k == inHand[0]
      modifies this
      ensures Valid() && inHand == old(inHand)[1..]
      ensures Turn(old(View()), View(), k, j, found, outcome, modules, states, served)
    {
      hide Agree, KeysOf, CountersAgree, QueueAgrees, ReadyAgrees, Idle, ListAt, Served, Pass, Effect, ServedAreDue;
      ghost var rest := inHand[1..];
      assert inHand + readyList == [k] + (rest + readyList);
      ReadyTaken(readyDict, k, rest + readyList);
      readyDict := readyDict - {k};
      inHand := rest;
      var n := |ListAt(blockingKeys, k)|;
      served, states := HandleClientsBlockedOnKey(k, InTurn(found, j, n), InTurn(outcome, j, n));
    }
  }

  /** A key that was taken off the dictionary can be signalled again. */
  lemma ReadyTaken(dict: set<Key>, k: Key, list: seq<Key>)
    requires ReadyAgrees(dict, [k] + list)
    ensures ReadyAgrees(dict - {k}, list)
  {
    var all := [k] + list;
    forall i, j | 0 <= i < j < |list|
      ensures list[i] != list[j]
    {
      assert all[i + 1] != all[j + 1];
    }
    forall x
      ensures x in dict - {k} <==> x in list
    {
      if x in list {
        var i :| 0 <= i < |list| && list[i] == x;
        assert all[i + 1] == x && all[0] == k;
      }
    }
  }

  // ---------------------------------------------------------------- the iteration over a list

  /** The clients that are still to be looked at have not changed. */
  ghost predicate StillWaiting(l: seq<Node>, i: nat, kinds0: map<Client, BType>, kinds: map<Client, BType>,
      wants0: set<Client>, wants: set<Client>) {
    && (forall x, y | 0 <= x < y < |l| :: l[x].client != l[y].client)
    && forall j | i <= j < |l| :: l[j].client in kinds0 && l[j].client in kinds &&
                                  kinds[l[j].client] == kinds0[l[j].client] && (l[j].client in wants <==> l[j].client in wants0)
  }

  lemma Waiting(l: seq<Node>, i: nat, kinds0: map<Client, BType>, kinds: map<Client, BType>, wants0: set<Client>, wants: set<Client>)
    requires StillWaiting(l, i, kinds0, kinds, wants0, wants) && i < |l|
    ensures var c := l[i].client; c in kinds0 && c in kinds && kinds[c] == kinds0[c] && (c in wants <==> c in wants0)
  {
  }

  lemma WaitingOnce(l: seq<Node>, i: nat, kinds0: map<Client, BType>, kinds: map<Client, BType>, wants0: set<Client>, wants: set<Client>)
    requires StillWaiting(l, i, kinds0, kinds, wants0, wants)
    ensures DistinctClients(l)
  {
  }

  lemma WaitingOnward(l: seq<Node>, i: nat, kinds0: map<Client, BType>, kinds: map<Client, BType>, wants0: set<Client>, wants: set<Client>)
    requires StillWaiting(l, i, kinds0, kinds, wants0, wants) && i < |l|
    ensures StillWaiting(l, i + 1, kinds0, kinds, wants0, wants)
  {
  }

  /** Serving one client leaves the others as they are. */
  lemma WaitingOn(l: seq<Node>, i: nat, kinds0: map<Client, BType>, kinds1: map<Client, BType>, kinds: map<Client, BType>,
      wants0: set<Client>, wants1: set<Client>, wants: set<Client>)
    requires StillWaiting(l, i, kinds0, kinds1, wants0, wants1) && i < |l|
    requires OthersSame(kinds1, kinds, wants1, wants, l[i].client)
    ensures StillWaiting(l, i + 1, kinds0, kinds, wants0, wants)
  {
  }

  /** A listed client is blocked, and no client is listed twice. */
  lemma ListOf(b: Lists, counts: Counts, held: Held, wants: set<Client>, next: nat, kinds: map<Client, BType>, k: Key)
    requires Agree(b, counts, held, wants, next) && Idle(kinds, held, wants)
    ensures k in b ==> b[k] != [] && ListAt(b, k) == b[k]
    ensures k !in b ==> ListAt(b, k) == []
    ensures StillWaiting(ListAt(b, k), 0, kinds, kinds, wants, wants)
    ensures forall i | 0 <= i < |ListAt(b, k)| :: k in KeysOf(held, ListAt(b, k)[i].client)
  {
    var l := ListAt(b, k);
    forall i | 0 <= i < |l|
      ensures k in KeysOf(held, l[i].client) && KeysOf(held, l[i].client)[k] == l[i].id
      ensures l[i].client in kinds
    {
      assert l[i] in b[k];
      if l[i].client !in kinds {
        IdleClient(kinds, held, wants, l[i].client);
      }
    }
    hide KeysOf;
  }

  lemma AtIterator(b: Lists, counts: Counts, held: Held, wants: set<Client>, next: nat, k: Key,
      pre: seq<Node>, l0: seq<Node>, i: nat, post: seq<Node>)
    requires Agree(b, counts, held, wants, next) && i < |l0| && ListAt(b, k) == pre + l0[i..] + post
    ensures k in b && IndexOf(b[k], l0[i].id) == |pre| < |b[k]| && b[k][|pre|] == l0[i]
    ensures i + 1 < |l0| ==> |pre| + 1 < |b[k]| && b[k][|pre| + 1] == l0[i + 1]
  {
    var l := ListAt(b, k);
    assert l[|pre|] == l0[i];
    assert k in b && Ordered(b[k], next);
    hide Agree, IndexOf;
    var at := IndexOf(l, l0[i].id);
    assert at == |pre|;
    assert i + 1 < |l0| ==> l[|pre| + 1] == l0[i + 1];
  }

  lemma OthersDiffer(pre: seq<Node>, l0: seq<Node>, i: nat, post: seq<Node>, kinds: map<Client, BType>, wants: set<Client>)
    requires i < |l0| && StillWaiting(pre + l0[i..] + post, 0, kinds, kinds, wants, wants)
    ensures forall n | n in pre + l0[i + 1..] + post :: n.client != l0[i].client
    ensures l0[i] == (pre + l0[i..] + post)[|pre|]
  {
    var l, rest := pre + l0[i..] + post, l0[i + 1..] + post;
    assert l == pre + [l0[i]] + rest && pre + l0[i + 1..] + post == pre + rest;
    forall n: Node | n in pre + rest
      ensures n.client != l0[i].client
    {
      if n in pre {
        var x :| 0 <= x < |pre| && pre[x] == n;
        assert l[x] == n && l[|pre|] == l0[i];
      } else {
        var x :| 0 <= x < |rest| && rest[x] == n;
        assert l[|pre| + 1 + x] == n && l[|pre|] == l0[i];
      }
    }
  }

  lemma MovedWithin(pre: seq<Node>, l0: seq<Node>, i: nat, post: seq<Node>, now: seq<Node>) returns (post1: seq<Node>)
    requires i < |l0| && Moved(pre + l0[i..] + post, now, l0[i].client)
    requires forall n | n in pre + l0[i + 1..] + post :: n.client != l0[i].client
    ensures now == pre + l0[i + 1..] + post1
  {
    var c := l0[i].client;
    assert pre + l0[i..] + post == pre + [l0[i]] + (l0[i + 1..] + post);
    assert pre + l0[i + 1..] + post == pre + (l0[i + 1..] + post);
    WithoutNode(pre, l0[i], l0[i + 1..] + post);
    hide Without;
    post1 := now[|pre + l0[i + 1..]|..];
  }

  lemma OthersHold(held: Held, c: Client, keys: map<Key, nat>)
    ensures forall d | d != c :: KeysOf(held[c := keys], d) == KeysOf(held, d)
  {
  }

  // ---------------------------------------------------------------- signals

  /** The quick returns of a signal are taken only when nobody is concerned. */
  lemma ConcernIsSeen(b: Lists, counts: Counts, held: Held, wants: set<Client>, next: nat, kinds: map<Client, BType>,
      modules: set<Client>, blocked: int, byType: map<BType, int>, k: Key, keyType: KeyType, deleted: bool)
    requires Agree(b, counts, held, wants, next) && CountersAgree(kinds, modules, blocked, byType)
    ensures forall c | Concerns(b, kinds, wants, k, keyType, deleted, c) ::
              && keyType.Some? && (byType[keyType.value] > 0 || byType[MODULE] > 0)
              && k in b && (deleted ==> k in counts)
  {
    hide ClientsListed, NodesHeld, ListsOrdered, Wanting;
    forall c | Concerns(b, kinds, wants, k, keyType, deleted, c)
      ensures keyType.Some? && (byType[keyType.value] > 0 || byType[MODULE] > 0)
      ensures k in b && (deleted ==> k in counts)
    {
      assert c in OfKind(kinds, kinds[c]);
      var n :| n in ListAt(b, k) && n.client == c;
      var i :| 0 <= i < |b[k]| && b[k][i] == n;
      if deleted {
        SomeoneWants(b[k], wants, i);
      }
    }
  }

  lemma SignalledNone(b: Lists, kinds: map<Client, BType>, wants: set<Client>, ready: set<Key>)
    ensures Signalled(b, kinds, wants, [], ready, ready)
  {
  }

  lemma SignalledOn(b: Lists, kinds: map<Client, BType>, wants: set<Client>, signals: seq<Signal>, g: Signal,
      ready0: set<Key>, ready: set<Key>, ready1: set<Key>)
    requires Signalled(b, kinds, wants, signals, ready0, ready) && ready <= ready1 <= ready + {g.key}
    requires Heeded(b, kinds, wants, g, ready1)
    ensures Signalled(b, kinds, wants, signals + [g], ready0, ready1)
  {
    hide Concerns;
    forall k | k in ready1
      ensures k in ready0 || exists h :: h in signals + [g] && h.key == k
    {
      if k in ready && k !in ready0 {
        var h :| h in signals && h.key == k;
        assert h in signals + [g];
      } else {
        assert g in signals + [g];
      }
    }
    forall h | h in signals + [g]
      ensures Heeded(b, kinds, wants, h, ready1)
    {
      if h in signals {
        assert Heeded(b, kinds, wants, h, ready);
      }
    }
  }

  lemma ReadyOnce(dict: set<Key>, list: seq<Key>, k: Key)
    requires ReadyAgrees(dict, list) && k !in dict
    ensures ReadyAgrees(dict + {k}, list + [k])
  {
  }

  // ---------------------------------------------------------------- one client moves

  lemma ReleasedTwice(b0: Lists, b1: Lists, b2: Lists, c: Client, k: Key)
    requires ListAt(b1, k) == Without(ListAt(b0, k), c)
    requires forall k1 | k1 != k :: ListAt(b1, k1) == ListAt(b0, k1)
    requires forall k1 :: ListAt(b2, k1) == Without(ListAt(b1, k1), c)
    ensures forall k1 :: ListAt(b2, k1) == Without(ListAt(b0, k1), c)
  {
    hide ListAt, Without;
    WithoutTwice(ListAt(b0, k), c);
  }

  lemma IdleStays(kinds: map<Client, BType>, held0: Held, held: Held, wants: set<Client>, c: Client)
    requires Idle(kinds, held0, wants) && c in kinds && forall d | d != c :: KeysOf(held, d) == KeysOf(held0, d)
    ensures Idle(kinds, held, wants)
  {
  }

  lemma FlagSet(b: Lists, counts: Counts, held: Held, wants: set<Client>, next: nat, c: Client, wanted: bool)
    requires Agree(b, counts, held, wants, next) && KeysOf(held, c) == map[]
    ensures Agree(b, counts, held, Wanted(wants, c, wanted), next)
  {
    FlagKeeps(b, counts, held, wants, Wanted(wants, c, wanted), next, c);
  }

  lemma FlagCleared(b: Lists, counts: Counts, held: Held, wants: set<Client>, next: nat, c: Client)
    requires Agree(b, counts, held, wants, next) && KeysOf(held, c) == map[]
    ensures Agree(b, counts, held, wants - {c}, next)
  {
    FlagKeeps(b, counts, held, wants, wants - {c}, next, c);
  }

  /** Clients that are not blocked still wait for nothing. */
  lemma WaitsOnly(b0: Lists, held0: Held, b: Lists, held: Held, c: Client, keys: seq<Key>, kinds: map<Client, BType>,
      wants: set<Client>, wanted: bool, btype: BType)
    requires WaitsFor(b0, held0, b, held, c, keys)
    requires Idle(kinds, held0, wants)
    ensures Idle(kinds[c := btype], held, Wanted(wants, c, wanted))
  {
    hide KeysOf, ListAt, Follows;
  }

  lemma ReleaseReady(b: Lists, counts: Counts, held: Held, wants: set<Client>, next: nat, c: Client, k: Key, rest: map<Key, nat>)
    requires Agree(b, counts, held[c := rest], wants, next) && k in rest
    ensures k in b && (c in wants ==> k in counts) && (k in counts ==> counts[k] > 0)
    ensures Agree(Released(b, k, rest[k]), CountDown(counts, b, k, rest[k], c in wants), held[c := rest - {k}], wants, next)
    ensures ListAt(Released(b, k, rest[k]), k) == Without(ListAt(b, k), c)
    ensures forall k1 | k1 != k :: ListAt(Released(b, k, rest[k]), k1) == ListAt(b, k1)
  {
    var now := held[c := rest];
    assert KeysOf(now, c) == rest && now[c := rest - {k}] == held[c := rest - {k}];
    ReleaseKeeps(b, counts, now, wants, next, c, k);
    ReleasedList(b, counts, now, wants, next, c, k);
    hide Released, CountDown, Without, CountFor;
  }

  lemma StaysIdle(kinds: map<Client, BType>, held0: Held, held: Held, wants: set<Client>, c: Client)
    requires Idle(kinds, held0, wants) && KeysOf(held, c) == map[]
    requires forall d | d != c :: KeysOf(held, d) == KeysOf(held0, d)
    ensures Idle(kinds - {c}, held, wants - {c})
  {
    hide KeysOf;
  }

  lemma IdleClient(kinds: map<Client, BType>, held: Held, wants: set<Client>, c: Client)
    requires Idle(kinds, held, wants) && c !in kinds
    ensures KeysOf(held, c) == map[] && c !in wants
  {
  }

  lemma ReleaseResult(b: Lists, counts: Counts, k: Key, id: nat, wanted: bool, l: seq<Node>)
    requires k in b && l == Unlinked(b[k], id) && (wanted ==> k in counts) && (k in counts ==> counts[k] > 0)
    ensures l == [] ==> Released(b, k, id) == b - {k} && CountDown(counts, b, k, id, wanted) == counts - {k}
    ensures l != [] ==> Released(b, k, id) == b[k := l]
    ensures l != [] && !wanted ==> CountDown(counts, b, k, id, wanted) == counts
    ensures l != [] && wanted && counts[k] == 1 ==> CountDown(counts, b, k, id, wanted) == counts - {k}
    ensures l != [] && wanted && counts[k] != 1 ==>
              CountDown(counts, b, k, id, wanted) == counts[k := counts[k] - 1] && counts[k] > 1
  {
    hide Unlinked;
  }

  lemma HeldItself(held: Held, c: Client, b: Lists, counts: Counts, wants: set<Client>, next: nat)
    requires Agree(b, counts, held, wants, next)
    ensures Agree(b, counts, held[c := KeysOf(held, c)], wants, next)
  {
    var now := held[c := KeysOf(held, c)];
    assert forall d :: KeysOf(now, d) == KeysOf(held, d);
    hide KeysOf, ListsOrdered, CountsAgree;
  }

  lemma OthersKeep(held: Held, c: Client)
    ensures KeysOf(held[c := map[]], c) == map[]
    ensures forall d | d != c :: KeysOf(held[c := map[]], d) == KeysOf(held, d)
  {
  }

  lemma AllCounted(kinds: map<Client, BType>, modules: set<Client>, blocked: int, byType: map<BType, int>, t: BType)
    requires CountersAgree(kinds, modules, blocked, byType)
    ensures t in byType && byType[t] == |OfKind(kinds, t)|
  {
  }

  lemma WantedHas(wants: set<Client>, c: Client, wanted: bool)
    ensures c in Wanted(wants, c, wanted) <==> wanted
  {
  }

  lemma WaitsNone(b: Lists, held: Held, c: Client)
    requires KeysOf(held, c) == map[]
    ensures WaitsFor(b, held, b, held, c, [])
  {
  }

  lemma WaitsAlready(b0: Lists, held0: Held, b: Lists, held: Held, c: Client, keys: seq<Key>, k: Key)
    requires WaitsFor(b0, held0, b, held, c, keys) && k in KeysOf(held, c)
    ensures WaitsFor(b0, held0, b, held, c, keys + [k])
  {
    hide KeysOf, ListAt, Follows;
    assert forall k1 :: k1 in keys + [k] <==> k1 in keys;
  }

  lemma WaitsMore(b0: Lists, held0: Held, b: Lists, held: Held, c: Client, keys: seq<Key>, k: Key, id: nat)
    requires WaitsFor(b0, held0, b, held, c, keys) && k !in KeysOf(held, c)
    ensures WaitsFor(b0, held0, Added(b, k, Node(id, c)), held[c := KeysOf(held, c)[k := id]], c, keys + [k])
  {
    HeldMore(held, c, k, id);
    var b1, held1 := Added(b, k, Node(id, c)), held[c := KeysOf(held, c)[k := id]];
    assert forall d | d != c :: KeysOf(held1, d) == KeysOf(held, d);
    assert ListAt(b1, k) == ListAt(b, k) + [Node(id, c)] && forall k1 | k1 != k :: ListAt(b1, k1) == ListAt(b, k1);
    hide KeysOf, ListAt, Added;
    forall k1
      ensures Follows(ListAt(b0, k1), ListAt(b1, k1), c, k1 in keys + [k])
    {
      assert Follows(ListAt(b0, k1), ListAt(b, k1), c, k1 in keys);
    }
    hide Follows;
  }
}
