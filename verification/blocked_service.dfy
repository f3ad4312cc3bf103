/** What serving clients does to lists, flags and queues, one client and one list at a time. */
module BlockedService {
  import opened Wrappers
  import opened BlockedIndex

  datatype BType = LIST | ZSET | STREAM | MODULE

  /** The kind of client that a key of some type can serve; other types never block. */
  type KeyType = Option<BType>

  /** The list of a key, empty when it has none. */
  function ListAt(b: Lists, k: Key): seq<Node> {
    if k in b then b[k] else []
  }

  function Without(l: seq<Node>, c: Client): seq<Node> {
    if l == [] then [] else Without(l[..|l| - 1], c) + if l[|l| - 1].client == c then [] else [l[|l| - 1]]
  }

  lemma {:induction false} WithoutAppend(a: seq<Node>, b: seq<Node>, c: Client)
    ensures Without(a + b, c) == Without(a, c) + Without(b, c)
    decreases |b|
  {
    if b == [] {
      assert a + b == a;
    } else {
      assert (a + b)[..|a + b| - 1] == a + b[..|b| - 1];
      WithoutAppend(a, b[..|b| - 1], c);
    }
  }

  lemma {:induction false} WithoutAbsent(l: seq<Node>, c: Client)
    requires forall n | n in l :: n.client != c
    ensures Without(l, c) == l
    decreases |l|
  {
    if l != [] {
      WithoutAbsent(l[..|l| - 1], c);
      assert l[|l| - 1] in l;
    }
  }

  lemma WithoutNode(before: seq<Node>, n: Node, after: seq<Node>)
    requires forall m | m in before + after :: m.client != n.client
    ensures Without(before + [n] + after, n.client) == before + after
  {
    WithoutOnly(n);
    hide Without;
    WithoutAbsent(before, n.client);
    WithoutAbsent(after, n.client);
    WithoutAppend(before + [n], after, n.client);
    WithoutAppend(before, [n], n.client);
    assert before + [] == before;
  }

  lemma WithoutOnly(n: Node)
    ensures Without([n], n.client) == []
  {
    assert [n][..0] == [] && Without([], n.client) == [];
  }

  ghost predicate NoDuplicates<T>(s: seq<T>) {
    forall i, j | 0 <= i < j < |s| :: s[i] != s[j]
  }

  /** What a command does when it runs again: it may signal keys, and it may block its client again. */
  datatype Signal = Signal(key: Key, keyType: KeyType, deleted: bool)
  datatype Request = Request(btype: BType, keys: seq<Key>, onNoKey: bool)
  datatype Outcome = Outcome(signals: seq<Signal>, reblock: Option<Request>)

  /** The key as it is found when a client is looked at: None when it does not exist. */
  type Found = Option<KeyType>

  predicate Matches(found: Found, btype: BType, onNoKey: bool) {
    (found.Some? && (found.value == Some(btype) || btype == MODULE)) || onNoKey
  }

  // ---------------------------------------------------------------- lists and flags

  function Wanted(wants: set<Client>, c: Client, wanted: bool): set<Client> {
    if wanted then wants + {c} else wants - {c}
  }

  /** Client `c`, which waited for nothing, now waits for `keys`, behind all others. */
  ghost predicate WaitsFor(b0: Lists, held0: Held, b: Lists, held: Held, c: Client, keys: seq<Key>) {
    && (forall k :: k in KeysOf(held, c) <==> k in keys)
    && (forall d | d != c :: KeysOf(held, d) == KeysOf(held0, d))
    && forall k :: Follows(ListAt(b0, k), ListAt(b, k), c, k in keys)
  }

  /** A list after a client may have blocked: it is the same, or the client's node is at its end. */
  ghost predicate Follows(was: seq<Node>, now: seq<Node>, c: Client, added: bool) {
    if added then |now| == |was| + 1 && now[..|was|] == was && now[|was|].client == c else now == was
  }

  /** Client `c` waits for key `k` and can be served by a key of this type. */
  ghost predicate Concerns(b: Lists, kinds: map<Client, BType>, wants: set<Client>, k: Key, keyType: KeyType,
      deleted: bool, c: Client) {
    && (exists n :: n in ListAt(b, k) && n.client == c) && c in kinds
    && keyType.Some? && (kinds[c] == keyType.value || kinds[c] == MODULE)
    && (deleted ==> c in wants)
  }

  /** A client has left a list, or it has left it and is at its end again. */
  ghost predicate Moved(was: seq<Node>, now: seq<Node>, c: Client) {
    var w := Without(was, c);
    now == w || (|now| == |w| + 1 && now[..|w|] == w && now[|w|].client == c)
  }

  ghost predicate OthersSame(kinds0: map<Client, BType>, kinds: map<Client, BType>, wants0: set<Client>,
      wants: set<Client>, c: Client) {
    forall d | d != c :: (d in kinds <==> d in kinds0) && (d in kinds ==> kinds[d] == kinds0[d]) && (d in wants <==> d in wants0)
  }

  lemma {:induction false} WithoutTwice(l: seq<Node>, c: Client)
    ensures Without(Without(l, c), c) == Without(l, c)
    ensures forall n | n in Without(l, c) :: n.client != c && n in l
    decreases |l|
  {
    if l != [] {
      WithoutTwice(l[..|l| - 1], c);
      WithoutAbsent(Without(l, c), c);
    }
  }

  // ---------------------------------------------------------------- who is served

  predicate CanBeServed(kinds: map<Client, BType>, wants: set<Client>, c: Client, found: Found) {
    c in kinds && kinds[c] != MODULE && Matches(found, kinds[c], c in wants)
  }

  /** The clients that match, among the first `n` of a list. */
  function Served(l: seq<Node>, founds: seq<Found>, kinds: map<Client, BType>, wants: set<Client>, n: nat): seq<Client>
    requires n <= |l| && n <= |founds|
  {
    if n == 0 then []
    else
      var c := l[n - 1].client;
      Served(l, founds, kinds, wants, n - 1) +
      if CanBeServed(kinds, wants, c, founds[n - 1]) then [c] else []
  }

  lemma ServedNobody(l: seq<Node>, founds: seq<Found>, kinds: map<Client, BType>, wants: set<Client>)
    ensures Served(l, founds, kinds, wants, 0) == []
  {
  }

  lemma ServedNext(l: seq<Node>, founds: seq<Found>, kinds: map<Client, BType>, wants: set<Client>, i: nat)
    requires i < |l| && i < |founds| && l[i].client in kinds
    ensures var c := l[i].client;
      Served(l, founds, kinds, wants, i + 1) == Served(l, founds, kinds, wants, i) +
      if kinds[c] != MODULE && Matches(founds[i], kinds[c], c in wants) then [c] else []
  {
    hide Matches;
  }

  // ---------------------------------------------------------------- one client is served

  /** The part of the server that service changes: lists, the clients' own keys, kinds and flags, the queue of
      unblocked clients and the keys signalled as ready. */
  datatype State = State(
    lists: Lists, held: Held, kinds: map<Client, BType>, wants: set<Client>, pending: set<Client>,
    unblocked: seq<Client>, ready: set<Key>)

  /** The client's command runs again and blocks again. */
  predicate Again(s: State, c: Client, o: Outcome) {
    c in s.pending && o.reblock.Some?
  }

  ghost predicate ListsServed(s: State, s1: State, c: Client, o: Outcome) {
    forall k :: Follows(Without(ListAt(s.lists, k), c), ListAt(s1.lists, k), c,
                        Again(s, c, o) && k in o.reblock.value.keys)
  }

  ghost predicate HeldServed(s: State, s1: State, c: Client, o: Outcome) {
    && (forall d | d != c :: KeysOf(s1.held, d) == KeysOf(s.held, d))
    && forall k :: k in KeysOf(s1.held, c) <==> Again(s, c, o) && k in o.reblock.value.keys
  }

  predicate FlagsServed(s: State, s1: State, c: Client, o: Outcome) {
    if Again(s, c, o) then
      var r := o.reblock.value;
      && s1.kinds == (s.kinds - {c})[c := r.btype] && s1.wants == Wanted(s.wants - {c}, c, r.onNoKey)
      && s1.pending == if r.btype == MODULE then s.pending - {c} else s.pending - {c} + {c}
    else s1.kinds == s.kinds - {c} && s1.wants == s.wants - {c} && s1.pending == s.pending - {c}
  }

  /** A client whose command is done is queued, once, unless it belongs to a module. */
  predicate QueueServed(s: State, s1: State, c: Client, o: Outcome, modules: set<Client>) {
    s1.unblocked == s.unblocked +
      if c in s.pending && o.reblock.None? && c !in modules && c !in s.unblocked then [c] else []
  }

  /** Only the keys that the command signals become ready, and every one that concerns a client does. */
  ghost predicate Signalled(b: Lists, kinds: map<Client, BType>, wants: set<Client>, signals: seq<Signal>,
      ready0: set<Key>, ready: set<Key>) {
    && ready0 <= ready
    && (forall k | k in ready :: k in ready0 || exists g :: g in signals && g.key == k)
    && forall g | g in signals :: Heeded(b, kinds, wants, g, ready)
  }

  ghost predicate Heeded(b: Lists, kinds: map<Client, BType>, wants: set<Client>, g: Signal, ready: set<Key>) {
    (exists d :: Concerns(b, kinds, wants, g.key, g.keyType, g.deleted, d)) ==> g.key in ready
  }

  /** The client has left its lists, with its flags cleared, before its command runs. */
  ghost predicate Left(s: State, m: State, c: Client) {
    && (forall k :: ListAt(m.lists, k) == Without(ListAt(s.lists, k), c))
    && (forall d | d != c :: KeysOf(m.held, d) == KeysOf(s.held, d)) && KeysOf(m.held, c) == map[]
    && m.kinds == s.kinds - {c} && m.wants == s.wants - {c}
    && m.pending == s.pending && m.unblocked == s.unblocked && m.ready == s.ready
  }

  /** The command of a client that is not blocked has run. */
  ghost predicate Reexecuted(m: State, s1: State, c: Client, o: Outcome) {
    && Signalled(m.lists, m.kinds, m.wants, o.signals, m.ready, s1.ready)
    && s1.unblocked == m.unblocked
    && match o.reblock
       case None => s1 == m.(ready := s1.ready)
       case Some(r) =>
         && WaitsFor(m.lists, m.held, s1.lists, s1.held, c, r.keys)
         && s1.kinds == m.kinds[c := r.btype] && s1.wants == Wanted(m.wants, c, r.onNoKey)
         && s1.pending == if r.btype == MODULE then m.pending else m.pending + {c}
  }

  /** The pending command has been taken up and has run, and the client may have been queued. */
  ghost predicate ProcessedAgain(m: State, s1: State, c: Client, o: Outcome, modules: set<Client>) {
    && Reexecuted(m.(pending := m.pending - {c}), s1.(unblocked := m.unblocked), c, o)
    && s1.unblocked == m.unblocked + if o.reblock.None? && c !in modules && c !in m.unblocked then [c] else []
  }

  /** unblockClientOnKey as a whole: what becomes of the client, and of everybody else. */
  ghost predicate ClientServed(s: State, s1: State, c: Client, o: Outcome, modules: set<Client>) {
    && ListsServed(s, s1, c, o) && HeldServed(s, s1, c, o) && FlagsServed(s, s1, c, o) && QueueServed(s, s1, c, o, modules)
    && SignalsServed(s, s1, c, o)
  }

  /** The keys that become ready are signalled by the command, and a signal that concerns another client is heeded. */
  ghost predicate SignalsServed(s: State, s1: State, c: Client, o: Outcome) {
    && s.ready <= s1.ready
    && (forall k | k in s1.ready && k !in s.ready :: c in s.pending && exists g :: g in o.signals && g.key == k)
    && (c in s.pending ==> forall g, d | g in o.signals && d != c &&
          Concerns(s.lists, s.kinds, s.wants, g.key, g.keyType, g.deleted, d) :: g.key in s1.ready)
  }

  lemma {:induction false} WithoutKeeps(l: seq<Node>, c: Client, n: Node)
    requires n in l && n.client != c
    ensures n in Without(l, c)
    decreases |l|
  {
    if l[|l| - 1] != n {
      WithoutKeeps(l[..|l| - 1], c, n);
    }
  }

  lemma ServedSignals(s: State, m: State, s1: State, c: Client, o: Outcome, modules: set<Client>)
    requires Left(s, m, c)
    requires if c in s.pending then ProcessedAgain(m, s1, c, o, modules) else s1 == m
    ensures SignalsServed(s, s1, c, o)
  {
    hide ListAt, Without, KeysOf, WaitsFor;
    forall g, d | c in s.pending && g in o.signals && d != c && Concerns(s.lists, s.kinds, s.wants, g.key, g.keyType, g.deleted, d)
      ensures g.key in s1.ready
    {
      var n :| n in ListAt(s.lists, g.key) && n.client == d;
      WithoutKeeps(ListAt(s.lists, g.key), c, n);
      assert Concerns(m.lists, m.kinds, m.wants, g.key, g.keyType, g.deleted, d);
      assert Heeded(m.lists, m.kinds, m.wants, g, s1.ready);
    }
  }

  lemma ServedAfter(s: State, m: State, s1: State, c: Client, o: Outcome, modules: set<Client>)
    requires Left(s, m, c)
    requires if c in s.pending then ProcessedAgain(m, s1, c, o, modules) else s1 == m
    ensures ClientServed(s, s1, c, o, modules)
  {
    ServedLists(s, m, s1, c, o, modules);
    ServedSignals(s, m, s1, c, o, modules);
    hide ListAt, Without, KeysOf, Signalled, WaitsFor, ListsServed, HeldServed, SignalsServed;
    assert c in s.pending ==> s.pending - {c} + {c} == m.pending - {c} + {c};
    assert c !in s.pending ==> s.pending - {c} == s.pending;
    assert s.unblocked + [] == s.unblocked;
  }

  lemma ServedLists(s: State, m: State, s1: State, c: Client, o: Outcome, modules: set<Client>)
    requires Left(s, m, c)
    requires if c in s.pending then ProcessedAgain(m, s1, c, o, modules) else s1 == m
    ensures ListsServed(s, s1, c, o) && HeldServed(s, s1, c, o)
  {
    hide ListAt, Without, KeysOf, Signalled;
    forall k
      ensures Follows(Without(ListAt(s.lists, k), c), ListAt(s1.lists, k), c, Again(s, c, o) && k in o.reblock.value.keys)
    {
      if Again(s, c, o) {
        assert Follows(ListAt(m.lists, k), ListAt(s1.lists, k), c, k in o.reblock.value.keys);
      } else {
        assert s1.lists == m.lists;
      }
    }
    hide Follows;
  }

  /** On the way a list loses the client, or has it at its end. */
  lemma ServedMoves(s: State, s1: State, c: Client, o: Outcome, modules: set<Client>)
    requires ClientServed(s, s1, c, o, modules)
    ensures forall k :: Moved(ListAt(s.lists, k), ListAt(s1.lists, k), c)
    ensures OthersSame(s.kinds, s1.kinds, s.wants, s1.wants, c)
  {
    hide ListAt, Without, HeldServed, QueueServed, SignalsServed;
    forall k
      ensures Moved(ListAt(s.lists, k), ListAt(s1.lists, k), c)
    {
      assert Follows(Without(ListAt(s.lists, k), c), ListAt(s1.lists, k), c, Again(s, c, o) && k in o.reblock.value.keys);
    }
  }

  /** Nothing about client `d` has changed. */
  ghost predicate Untouched(s: State, s1: State, d: Client) {
    && KeysOf(s1.held, d) == KeysOf(s.held, d)
    && (d in s1.kinds <==> d in s.kinds) && (d in s.kinds ==> s1.kinds[d] == s.kinds[d])
    && (d in s1.wants <==> d in s.wants) && (d in s1.pending <==> d in s.pending)
    && (d in s1.unblocked <==> d in s.unblocked)
  }

  lemma ServedAlone(s: State, s1: State, c: Client, o: Outcome, modules: set<Client>, d: Client)
    requires ClientServed(s, s1, c, o, modules) && d != c
    ensures Untouched(s, s1, d)
  {
    hide ListsServed, KeysOf, SignalsServed;
  }

  /** What has become of a client that was served: blocked again on the keys its command named, or queued. */
  ghost predicate Fate(s: State, s1: State, c: Client, o: Outcome, modules: set<Client>) {
    && (forall k :: k in KeysOf(s1.held, c) <==> Again(s, c, o) && k in o.reblock.value.keys)
    && (c in s1.kinds <==> Again(s, c, o)) && (Again(s, c, o) ==> s1.kinds[c] == o.reblock.value.btype)
    && (c in s1.wants <==> Again(s, c, o) && o.reblock.value.onNoKey)
    && (c in s1.pending <==> Again(s, c, o) && o.reblock.value.btype != MODULE)
    && (c in s1.unblocked <==> c in s.unblocked || (c in s.pending && o.reblock.None? && c !in modules))
  }

  lemma ServedFate(s: State, s1: State, c: Client, o: Outcome, modules: set<Client>)
    requires ClientServed(s, s1, c, o, modules)
    ensures Fate(s, s1, c, o, modules)
  {
    hide ListsServed, KeysOf, SignalsServed;
  }

  // ---------------------------------------------------------------- a list is passed over

  /** The client can be served. */
  predicate CanServe(s: State, c: Client, found: Found) {
    CanBeServed(s.kinds, s.wants, c, found)
  }

  /** The loop at one client: it is served, or nothing happens. */
  ghost predicate LookedAt(s: State, s1: State, c: Client, found: Found, o: Outcome, modules: set<Client>) {
    if CanServe(s, c, found) then ClientServed(s, s1, c, o, modules) else s1 == s
  }

  /** The first `n` clients of a list have been looked at, one after the other. */
  ghost predicate Pass(states: seq<State>, l: seq<Node>, founds: seq<Found>, outcomes: seq<Outcome>, modules: set<Client>, n: nat) {
    && n <= |l| <= |founds| && |l| <= |outcomes| && |states| == n + 1
    && forall i | 0 <= i < n :: LookedAt(states[i], states[i + 1], l[i].client, founds[i], outcomes[i], modules)
  }

  lemma PassOn(states: seq<State>, s1: State, l: seq<Node>, founds: seq<Found>, outcomes: seq<Outcome>, modules: set<Client>, n: nat)
    requires Pass(states, l, founds, outcomes, modules, n) && n < |l|
    requires LookedAt(states[n], s1, l[n].client, founds[n], outcomes[n], modules)
    ensures Pass(states + [s1], l, founds, outcomes, modules, n + 1)
  {
    hide LookedAt;
    var all := states + [s1];
    forall i | 0 <= i < n + 1
      ensures LookedAt(all[i], all[i + 1], l[i].client, founds[i], outcomes[i], modules)
    {
      if i < n {
        assert all[i] == states[i] && all[i + 1] == states[i + 1];
      }
    }
  }

  ghost predicate DistinctClients(l: seq<Node>) {
    forall i, j | 0 <= i < j < |l| :: l[i].client != l[j].client
  }

  /** The nodes of all other clients, in order. */
  function LeftOut(l: seq<Node>, cs: seq<Client>): seq<Node> {
    if cs == [] then l else Without(LeftOut(l, cs[..|cs| - 1]), cs[|cs| - 1])
  }

  /** The list has kept all nodes of other clients, in order, and behind them come only nodes of `cs`. */
  ghost predicate Thinned(was: seq<Node>, now: seq<Node>, cs: seq<Client>) {
    var w := LeftOut(was, cs);
    && |w| <= |now| && now[..|w|] == w && forall i | |w| <= i < |now| :: now[i].client in cs
  }

  lemma ThinnedByNobody(l: seq<Node>)
    ensures Thinned(l, l, [])
  {
    assert LeftOut(l, []) == l && l[..|l|] == l;
  }

  lemma ThinnedOn(was: seq<Node>, now: seq<Node>, next: seq<Node>, cs: seq<Client>, c: Client, added: bool)
    requires Thinned(was, now, cs) && Follows(Without(now, c), next, c, added)
    ensures Thinned(was, next, cs + [c])
  {
    hide Without, LeftOut, Follows;
    var w := LeftOut(was, cs);
    var tail := now[|w|..];
    LeftOutMore(was, cs, c);
    WithoutAppend(w, tail, c);
    assert now == w + tail;
    assert OnlyClients(tail, cs);
    TailWithout(tail, cs, c);
    TailGrows(LeftOut(was, cs + [c]), Without(tail, c), next, cs, c, added);
  }

  ghost predicate OnlyClients(l: seq<Node>, cs: seq<Client>) {
    forall i | 0 <= i < |l| :: l[i].client in cs
  }

  lemma TailWithout(tail: seq<Node>, cs: seq<Client>, c: Client)
    requires OnlyClients(tail, cs)
    ensures OnlyClients(Without(tail, c), cs)
  {
    WithoutTwice(tail, c);
    hide Without;
    forall i | 0 <= i < |Without(tail, c)|
      ensures Without(tail, c)[i].client in cs
    {
      assert Without(tail, c)[i] in tail;
    }
  }

  lemma LeftOutMore(was: seq<Node>, cs: seq<Client>, c: Client)
    ensures LeftOut(was, cs + [c]) == Without(LeftOut(was, cs), c)
  {
    assert (cs + [c])[..|cs|] == cs;
  }

  lemma TailGrows(w: seq<Node>, rest: seq<Node>, next: seq<Node>, cs: seq<Client>, c: Client, added: bool)
    requires Follows(w + rest, next, c, added) && OnlyClients(rest, cs)
    ensures |w| <= |next| && next[..|w|] == w && forall i | |w| <= i < |next| :: next[i].client in cs + [c]
  {
    forall i | |w| <= i < |next|
      ensures next[i].client in cs + [c]
    {
      if i < |w + rest| {
        assert next[i] == next[..|w + rest|][i] == rest[i - |w|];
      }
    }
    assert next[..|w|] == next[..|w + rest|][..|w|];
  }

  /** The effect of looking at the first `n` clients of the list `l`. */
  ghost predicate Effect(s: State, s1: State, l: seq<Node>, founds: seq<Found>, outcomes: seq<Outcome>, modules: set<Client>, n: nat)
    requires n <= |l| <= |founds| && |l| <= |outcomes|
  {
    var served := Served(l, founds, s.kinds, s.wants, n);
    && (forall k :: Thinned(ListAt(s.lists, k), ListAt(s1.lists, k), served))
    && (forall d | d !in served :: Untouched(s, s1, d))
    && s.unblocked <= s1.unblocked
    && forall i | 0 <= i < n && CanServe(s, l[i].client, founds[i]) :: Fate(s, s1, l[i].client, outcomes[i], modules)
  }

  // ---------------------------------------------------------------- who is served

  lemma {:induction false} ServedMembers(l: seq<Node>, founds: seq<Found>, kinds: map<Client, BType>, wants: set<Client>, n: nat)
    requires n <= |l| && n <= |founds|
    ensures forall c :: c in Served(l, founds, kinds, wants, n) <==>
              exists i :: 0 <= i < n && l[i].client == c && CanBeServed(kinds, wants, c, founds[i])
    decreases n
  {
    hide CanBeServed;
    if n > 0 {
      ServedMembers(l, founds, kinds, wants, n - 1);
    }
  }

  /** A client of the list is served at its place: behind all that come before it in the list. */
  lemma {:induction false} ServedPlace(l: seq<Node>, founds: seq<Found>, kinds: map<Client, BType>, wants: set<Client>, i: nat, n: nat)
    requires i < n <= |l| && n <= |founds| && CanBeServed(kinds, wants, l[i].client, founds[i])
    ensures var p, all := |Served(l, founds, kinds, wants, i)|, Served(l, founds, kinds, wants, n);
      p < |all| && all[p] == l[i].client
    decreases n
  {
    hide CanBeServed;
    if i < n - 1 {
      ServedPlace(l, founds, kinds, wants, i, n - 1);
    }
  }

  lemma {:induction false} ServedGrows(l: seq<Node>, founds: seq<Found>, kinds: map<Client, BType>, wants: set<Client>, i: nat, n: nat)
    requires i <= n <= |l| && n <= |founds|
    ensures |Served(l, founds, kinds, wants, i)| <= |Served(l, founds, kinds, wants, n)|
    decreases n
  {
    hide CanBeServed;
    if i < n {
      ServedGrows(l, founds, kinds, wants, i, n - 1);
    }
  }

  /** Exactly the matching clients are served, each of them once, in the order of the list. */
  lemma ServedExactly(l: seq<Node>, founds: seq<Found>, kinds: map<Client, BType>, wants: set<Client>, n: nat)
    requires n <= |l| && n <= |founds| && DistinctClients(l)
    ensures var all := Served(l, founds, kinds, wants, n);
      && NoDuplicates(all)
      && (forall c :: c in all <==> exists i :: 0 <= i < n && l[i].client == c && CanBeServed(kinds, wants, c, founds[i]))
    ensures forall i, j | 0 <= i < j < n && CanBeServed(kinds, wants, l[i].client, founds[i]) &&
                          CanBeServed(kinds, wants, l[j].client, founds[j]) ::
      var p, q := |Served(l, founds, kinds, wants, i)|, |Served(l, founds, kinds, wants, j)|;
      var all := Served(l, founds, kinds, wants, n);
      p < q < |all| && all[p] == l[i].client && all[q] == l[j].client
  {
    ServedMembers(l, founds, kinds, wants, n);
    ServedOnce(l, founds, kinds, wants, n);
    hide CanBeServed, NoDuplicates, Served, DistinctClients;
    forall i, j | 0 <= i < j < n && CanBeServed(kinds, wants, l[i].client, founds[i]) &&
                  CanBeServed(kinds, wants, l[j].client, founds[j])
      ensures var p, q := |Served(l, founds, kinds, wants, i)|, |Served(l, founds, kinds, wants, j)|;
        var all := Served(l, founds, kinds, wants, n);
        p < q < |all| && all[p] == l[i].client && all[q] == l[j].client
    {
      ServedInOrder(l, founds, kinds, wants, i, j, n);
    }
  }

  lemma ServedInOrder(l: seq<Node>, founds: seq<Found>, kinds: map<Client, BType>, wants: set<Client>, i: nat, j: nat, n: nat)
    requires i < j < n <= |l| && n <= |founds|
    requires CanBeServed(kinds, wants, l[i].client, founds[i]) && CanBeServed(kinds, wants, l[j].client, founds[j])
    ensures var p, q := |Served(l, founds, kinds, wants, i)|, |Served(l, founds, kinds, wants, j)|;
      var all := Served(l, founds, kinds, wants, n);
      p < q < |all| && all[p] == l[i].client && all[q] == l[j].client
  {
    ServedPlace(l, founds, kinds, wants, i, n);
    ServedPlace(l, founds, kinds, wants, j, n);
    ServedGrows(l, founds, kinds, wants, i + 1, j);
    hide CanBeServed;
  }

  /** The client is one of a command on keys, and the key is there with the type it waits for, or the client is
      to be woken whatever has become of the key. */
  predicate Due(found: Found, kinds: map<Client, BType>, wants: set<Client>, c: Client) {
    c in kinds && kinds[c] != MODULE && (found == Some(Some(kinds[c])) || c in wants)
  }

  /** Who is served, client by client: exactly those that are due when their turn in the list comes. */
  ghost predicate ServedAreDue(l: seq<Node>, founds: seq<Found>, kinds: map<Client, BType>, wants: set<Client>, n: nat,
      served: seq<Client>) {
    && n <= |l| && n <= |founds|
    && (forall i | 0 <= i < n :: l[i].client in served <==> Due(founds[i], kinds, wants, l[i].client))
    && forall c | c in served :: exists i :: 0 <= i < n && l[i].client == c
  }

  lemma ServedIffDue(l: seq<Node>, founds: seq<Found>, kinds: map<Client, BType>, wants: set<Client>, n: nat)
    requires n <= |l| && n <= |founds| && DistinctClients(l)
    ensures ServedAreDue(l, founds, kinds, wants, n, Served(l, founds, kinds, wants, n))
  {
    ServedMembers(l, founds, kinds, wants, n);
    hide Served, DistinctClients;
    forall i | 0 <= i < n
      ensures CanBeServed(kinds, wants, l[i].client, founds[i]) == Due(founds[i], kinds, wants, l[i].client)
    {
    }
    forall i, j | 0 <= i < n && 0 <= j < n && l[i].client == l[j].client
      ensures i == j
    {
      OnePlace(l, i, j);
    }
    hide CanBeServed, Due;
  }

  /** The same in full: a listed client of a command on keys is served when its key is found with the type it
      waits for, or when it wants to be woken without the key, and in no other case; clients of modules, whose
      service is another function, are passed over. */
  lemma ServedInFull(l: seq<Node>, founds: seq<Found>, kinds: map<Client, BType>, wants: set<Client>, i: nat)
    requires i < |l| <= |founds| && DistinctClients(l) && l[i].client in kinds
    ensures var c, served := l[i].client, Served(l, founds, kinds, wants, |l|);
      && (founds[i] == Some(Some(kinds[c])) && kinds[c] != MODULE ==> c in served)
      && (c in wants && kinds[c] != MODULE ==> c in served)
      && (kinds[c] == MODULE ==> c !in served)
      && (c !in wants && (founds[i].None? || founds[i].value != Some(kinds[c])) ==> c !in served)
  {
    ServedIffDue(l, founds, kinds, wants, |l|);
    hide Served, DistinctClients;
  }

  lemma OnePlace(l: seq<Node>, i: nat, j: nat)
    requires DistinctClients(l) && i < |l| && j < |l| && l[i].client == l[j].client
    ensures i == j
  {
  }

  lemma {:induction false} ServedOnce(l: seq<Node>, founds: seq<Found>, kinds: map<Client, BType>, wants: set<Client>, n: nat)
    requires n <= |l| && n <= |founds| && DistinctClients(l)
    ensures NoDuplicates(Served(l, founds, kinds, wants, n))
    decreases n
  {
    hide CanBeServed;
    if n > 0 {
      ServedOnce(l, founds, kinds, wants, n - 1);
      ServedMembers(l, founds, kinds, wants, n - 1);
      var c, before := l[n - 1].client, Served(l, founds, kinds, wants, n - 1);
      assert c !in before;
    }
  }

  // ---------------------------------------------------------------- the effect of a whole pass

  lemma EffectOfNothing(s: State, l: seq<Node>, founds: seq<Found>, outcomes: seq<Outcome>, modules: set<Client>)
    requires |l| <= |founds| && |l| <= |outcomes|
    ensures Effect(s, s, l, founds, outcomes, modules, 0)
  {
    hide ListAt, KeysOf, Fate, CanServe, Thinned;
    forall k
      ensures Thinned(ListAt(s.lists, k), ListAt(s.lists, k), [])
    {
      ThinnedByNobody(ListAt(s.lists, k));
    }
  }

  /** One more client is looked at; it has not been touched before. */
  lemma EffectOn(s: State, m: State, s1: State, l: seq<Node>, founds: seq<Found>, outcomes: seq<Outcome>, modules: set<Client>, n: nat)
    requires n < |l| <= |founds| && |l| <= |outcomes| && DistinctClients(l)
    requires Effect(s, m, l, founds, outcomes, modules, n)
    requires LookedAt(m, s1, l[n].client, founds[n], outcomes[n], modules)
    ensures Effect(s, s1, l, founds, outcomes, modules, n + 1)
  {
    var c, o := l[n].client, outcomes[n];
    var served := Served(l, founds, s.kinds, s.wants, n);
    ServedMembers(l, founds, s.kinds, s.wants, n);
    assert c !in served && Untouched(s, m, c);
    assert CanServe(s, c, founds[n]) == CanServe(m, c, founds[n]);
    assert Served(l, founds, s.kinds, s.wants, n + 1) == served + if CanServe(s, c, founds[n]) then [c] else [];
    hide Served, ListAt, Thinned, Untouched, Fate, CanServe, CanBeServed, ClientServed;
    if CanServe(m, c, founds[n]) {
      EffectLists(s, m, s1, served, c, o, modules);
      EffectOthers(s, m, s1, served, c, o, modules);
      EffectFates(s, m, s1, l, founds, outcomes, modules, n);
      QueueGrows(m, s1, c, o, modules);
    } else {
      assert served + [] == served;
    }
  }

  lemma QueueGrows(m: State, s1: State, c: Client, o: Outcome, modules: set<Client>)
    requires ClientServed(m, s1, c, o, modules)
    ensures m.unblocked <= s1.unblocked
  {
    hide ListsServed, HeldServed, FlagsServed, SignalsServed;
  }

  lemma EffectLists(s: State, m: State, s1: State, served: seq<Client>, c: Client, o: Outcome, modules: set<Client>)
    requires ClientServed(m, s1, c, o, modules)
    requires forall k :: Thinned(ListAt(s.lists, k), ListAt(m.lists, k), served)
    ensures forall k :: Thinned(ListAt(s.lists, k), ListAt(s1.lists, k), served + [c])
  {
    hide ListAt, Thinned, Without, HeldServed, FlagsServed, QueueServed, SignalsServed, Follows;
    forall k
      ensures Thinned(ListAt(s.lists, k), ListAt(s1.lists, k), served + [c])
    {
      ThinnedOn(ListAt(s.lists, k), ListAt(m.lists, k), ListAt(s1.lists, k), served, c, Again(m, c, o) && k in o.reblock.value.keys);
    }
  }

  lemma EffectOthers(s: State, m: State, s1: State, served: seq<Client>, c: Client, o: Outcome, modules: set<Client>)
    requires ClientServed(m, s1, c, o, modules) && forall d | d !in served :: Untouched(s, m, d)
    ensures forall d | d !in served + [c] :: Untouched(s, s1, d)
  {
    forall d | d !in served + [c]
      ensures Untouched(s, s1, d)
    {
      ServedAlone(m, s1, c, o, modules, d);
    }
  }

  lemma FateKept(s: State, m: State, s1: State, d: Client, o: Outcome, modules: set<Client>)
    requires Fate(s, m, d, o, modules) && Untouched(m, s1, d)
    ensures Fate(s, s1, d, o, modules)
  {
    hide KeysOf;
  }

  lemma FateFrom(s: State, m: State, s1: State, c: Client, o: Outcome, modules: set<Client>)
    requires Untouched(s, m, c) && Fate(m, s1, c, o, modules)
    ensures Fate(s, s1, c, o, modules)
  {
    hide KeysOf;
  }

  lemma EffectFates(s: State, m: State, s1: State, l: seq<Node>, founds: seq<Found>, outcomes: seq<Outcome>, modules: set<Client>, n: nat)
    requires n < |l| <= |founds| && |l| <= |outcomes| && DistinctClients(l)
    requires ClientServed(m, s1, l[n].client, outcomes[n], modules) && Untouched(s, m, l[n].client)
    requires forall i | 0 <= i < n && CanServe(s, l[i].client, founds[i]) :: Fate(s, m, l[i].client, outcomes[i], modules)
    ensures forall i | 0 <= i < n + 1 && CanServe(s, l[i].client, founds[i]) :: Fate(s, s1, l[i].client, outcomes[i], modules)
  {
    var c := l[n].client;
    ServedFate(m, s1, c, outcomes[n], modules);
    FateFrom(s, m, s1, c, outcomes[n], modules);
    hide Fate, Untouched, CanServe;
    forall i | 0 <= i < n && CanServe(s, l[i].client, founds[i])
      ensures Fate(s, s1, l[i].client, outcomes[i], modules)
    {
      ServedAlone(m, s1, c, outcomes[n], modules, l[i].client);
      FateKept(s, m, s1, l[i].client, outcomes[i], modules);
    }
  }

  /** The effect of a pass over a whole list: every list keeps all nodes of clients that were not served, in
      order, with nodes of served clients behind; clients that were not served are untouched; and every served
      client is blocked again as its command asked, or is queued. */
  lemma {:induction false} PassEffect(states: seq<State>, l: seq<Node>, founds: seq<Found>, outcomes: seq<Outcome>, modules: set<Client>, n: nat)
    requires Pass(states, l, founds, outcomes, modules, n) && DistinctClients(l)
    ensures Effect(states[0], states[n], l, founds, outcomes, modules, n)
    decreases n
  {
    if n == 0 {
      EffectOfNothing(states[0], l, founds, outcomes, modules);
    } else {
      var front := states[..n];
      PassFront(states, l, founds, outcomes, modules, n);
      PassEffect(front, l, founds, outcomes, modules, n - 1);
      hide Effect, LookedAt;
      assert LookedAt(states[n - 1], states[n], l[n - 1].client, founds[n - 1], outcomes[n - 1], modules);
      EffectOn(states[0], states[n - 1], states[n], l, founds, outcomes, modules, n - 1);
    }
  }

  lemma PassFront(states: seq<State>, l: seq<Node>, founds: seq<Found>, outcomes: seq<Outcome>, modules: set<Client>, n: nat)
    requires Pass(states, l, founds, outcomes, modules, n) && n > 0
    ensures Pass(states[..n], l, founds, outcomes, modules, n - 1)
    ensures LookedAt(states[n - 1], states[n], l[n - 1].client, founds[n - 1], outcomes[n - 1], modules)
  {
    hide LookedAt;
    var i := n - 1;
    assert LookedAt(states[i], states[i + 1], l[i].client, founds[i], outcomes[i], modules);
  }

  lemma LookedServing(s: State, s1: State, c: Client, found: Found, o: Outcome, modules: set<Client>)
    requires c in s.kinds && Matches(found, s.kinds[c], c in s.wants) && s.kinds[c] != MODULE
    requires ClientServed(s, s1, c, o, modules)
    ensures LookedAt(s, s1, c, found, o, modules)
  {
    hide Matches, ClientServed;
  }

  lemma LookedPassing(s: State, c: Client, found: Found, o: Outcome, modules: set<Client>)
    requires c in s.kinds && !(Matches(found, s.kinds[c], c in s.wants) && s.kinds[c] != MODULE)
    ensures LookedAt(s, s, c, found, o, modules)
  {
    hide Matches;
  }

  // ---------------------------------------------------------------- a round over the ready keys

  /** What the environment does in turn `j`. */
  function InTurn<T>(what: (nat, nat) -> T, j: nat, n: nat): (s: seq<T>)
    ensures |s| == n
  {
    seq(n, i requires 0 <= i => what(j, i))
  }

  /** The turn of a key: it leaves the ready keys, and its list as it is then is passed over. */
  ghost predicate Turn(s: State, s1: State, k: Key, j: nat, found: (nat, nat) -> Found, outcome: (nat, nat) -> Outcome,
      modules: set<Client>, states: seq<State>, served: seq<Client>) {
    var l, start := ListAt(s.lists, k), s.(ready := s.ready - {k});
    var founds, outcomes := InTurn(found, j, |l|), InTurn(outcome, j, |l|);
    && served == Served(l, founds, s.kinds, s.wants, |l|) && ServedAreDue(l, founds, s.kinds, s.wants, |l|, served)
    && Pass(states, l, founds, outcomes, modules, |l|) && states[0] == start && states[|l|] == s1
    && Effect(start, s1, l, founds, outcomes, modules, |l|)
  }

  /** Where the turn `j` begins: where the turn before it ended. */
  function Begin(s: State, turns: seq<seq<State>>, j: nat): State {
    if 0 < j <= |turns| && turns[j - 1] != [] then turns[j - 1][|turns[j - 1]| - 1] else s
  }

  /** The first `n` keys have had their turns, each where the one before it ended. */
  ghost predicate Round(s: State, s1: State, keys: seq<Key>, found: (nat, nat) -> Found, outcome: (nat, nat) -> Outcome,
      modules: set<Client>, turns: seq<seq<State>>, served: seq<seq<Client>>, n: nat) {
    && n <= |keys| && |turns| == n == |served| && s1 == Begin(s, turns, n)
    && forall j | 0 <= j < n ::
         Turn(Begin(s, turns, j), Begin(s, turns, j + 1), keys[j], j, found, outcome, modules, turns[j], served[j])
  }

  lemma RoundOfNothing(s: State, keys: seq<Key>, found: (nat, nat) -> Found, outcome: (nat, nat) -> Outcome, modules: set<Client>)
    ensures Round(s, s, keys, found, outcome, modules, [], [], 0)
  {
  }

  lemma RoundOn(s: State, m: State, s1: State, keys: seq<Key>, found: (nat, nat) -> Found, outcome: (nat, nat) -> Outcome,
      modules: set<Client>, turns: seq<seq<State>>, states: seq<State>, served: seq<seq<Client>>, clients: seq<Client>, n: nat)
    requires Round(s, m, keys, found, outcome, modules, turns, served, n) && n < |keys|
    requires Turn(m, s1, keys[n], n, found, outcome, modules, states, clients)
    ensures Round(s, s1, keys, found, outcome, modules, turns + [states], served + [clients], n + 1)
  {
    hide Turn;
    TurnEnds(m, s1, keys[n], n, found, outcome, modules, states, clients);
    var all := turns + [states];
    forall j | 0 <= j < n + 1
      ensures Turn(Begin(s, all, j), Begin(s, all, j + 1), keys[j], j, found, outcome, modules, all[j], (served + [clients])[j])
    {
      if j < n {
        assert Begin(s, all, j) == Begin(s, turns, j) && Begin(s, all, j + 1) == Begin(s, turns, j + 1);
      }
    }
  }

  /** A client that a signal concerned is served when its key's turn comes, if it still waits for the key then and
      the key is still found as it was signalled, or the client is to be woken without the key. */
  lemma SignalledIsServed(s: State, s1: State, k: Key, j: nat, found: (nat, nat) -> Found, outcome: (nat, nat) -> Outcome,
      modules: set<Client>, states: seq<State>, served: seq<Client>, g: Signal, i: nat)
    requires Turn(s, s1, k, j, found, outcome, modules, states, served)
    requires i < |ListAt(s.lists, k)| && g.key == k
    requires var c := ListAt(s.lists, k)[i].client;
      && Concerns(s.lists, s.kinds, s.wants, k, g.keyType, g.deleted, c) && s.kinds[c] != MODULE
      && (found(j, i) == Some(g.keyType) || g.deleted)
    ensures ListAt(s.lists, k)[i].client in served
  {
    var l := ListAt(s.lists, k);
    var founds := InTurn(found, j, |l|);
    assert founds[i] == found(j, i);
    hide Served, Effect, Pass, ListAt;
  }

  lemma TurnEnds(s: State, s1: State, k: Key, j: nat, found: (nat, nat) -> Found, outcome: (nat, nat) -> Outcome,
      modules: set<Client>, states: seq<State>, served: seq<Client>)
    requires Turn(s, s1, k, j, found, outcome, modules, states, served)
    ensures states != [] && states[|states| - 1] == s1
  {
    hide Effect, Served, LookedAt;
  }
}
