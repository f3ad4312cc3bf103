/** The index of clients blocked on keys: the keys of every client, the clients of every key in the order
    in which they blocked, and how many of those want to wake up when the key disappears. */
module BlockedIndex {
  type Client = nat

  /** A key of a database. */
  datatype Key = Key(db: nat, name: string)

  /** A list node has an identity: the client's own map refers to it. */
  datatype Node = Node(id: nat, client: Client)

  type Lists = map<Key, seq<Node>>
  type Held = map<Client, map<Key, nat>>
  type Counts = map<Key, nat>

  function KeysOf(held: Held, c: Client): map<Key, nat> {
    if c in held then held[c] else map[]
  }

  /** The number of listed clients that want to wake up when the key disappears. */
  function Wanting(l: seq<Node>, want: set<Client>): nat {
    if l == [] then 0 else Wanting(l[..|l| - 1], want) + if l[|l| - 1].client in want then 1 else 0
  }

  /** Nodes are linked in the order in which they were made. */
  ghost predicate Ordered(l: seq<Node>, next: nat) {
    && (forall i, j | 0 <= i < j < |l| :: l[i].id < l[j].id)
    && forall i | 0 <= i < |l| :: l[i].id < next
  }

  ghost predicate ClientsListed(b: Lists, held: Held) {
    forall c, k | k in KeysOf(held, c) :: k in b && Node(KeysOf(held, c)[k], c) in b[k]
  }

  ghost predicate NodesHeld(b: Lists, held: Held) {
    forall k, n | k in b && n in b[k] :: k in KeysOf(held, n.client) && KeysOf(held, n.client)[k] == n.id
  }

  ghost predicate ListsOrdered(b: Lists, next: nat) {
    forall k | k in b :: b[k] != [] && Ordered(b[k], next)
  }

  function CountFor(b: Lists, want: set<Client>, k: Key): nat {
    if k in b then Wanting(b[k], want) else 0
  }

  ghost predicate CountsAgree(b: Lists, counts: Counts, want: set<Client>) {
    forall k :: (k in counts <==> CountFor(b, want, k) > 0) && (k in counts ==> counts[k] == CountFor(b, want, k))
  }

  ghost predicate Agree(b: Lists, counts: Counts, held: Held, want: set<Client>, next: nat) {
    ClientsListed(b, held) && NodesHeld(b, held) && ListsOrdered(b, next) && CountsAgree(b, counts, want)
  }

  /** A client is in a list at most once, at the node it remembers. */
  lemma ExactlyOnce(b: Lists, counts: Counts, held: Held, want: set<Client>, next: nat, c: Client, k: Key)
    requires Agree(b, counts, held, want, next)
    ensures k in KeysOf(held, c) <==> k in b && exists i :: 0 <= i < |b[k]| && b[k][i].client == c
    ensures k in b ==> forall i, j | 0 <= i < |b[k]| && 0 <= j < |b[k]| && b[k][i].client == c && b[k][j].client == c ::
                         i == j && b[k][i] == Node(KeysOf(held, c)[k], c)
  {
    if k in b {
      forall i, j | 0 <= i < |b[k]| && 0 <= j < |b[k]| && b[k][i].client == c && b[k][j].client == c
        ensures i == j && b[k][i] == Node(KeysOf(held, c)[k], c)
      {
        assert b[k][i] in b[k] && b[k][j] in b[k];
      }
    }
  }

  // ---------------------------------------------------------------- counting

  lemma {:induction false} WantingAppend(a: seq<Node>, b: seq<Node>, want: set<Client>)
    ensures Wanting(a + b, want) == Wanting(a, want) + Wanting(b, want)
    decreases |b|
  {
    if b == [] {
      assert a + b == a;
    } else {
      assert (a + b)[..|a + b| - 1] == a + b[..|b| - 1];
      WantingAppend(a, b[..|b| - 1], want);
    }
  }

  /** Flags of clients that are not listed make no difference. */
  lemma {:induction false} WantingSame(l: seq<Node>, want: set<Client>, now: set<Client>)
    requires forall i | 0 <= i < |l| :: l[i].client in want <==> l[i].client in now
    ensures Wanting(l, want) == Wanting(l, now)
    decreases |l|
  {
    if l != [] {
      WantingSame(l[..|l| - 1], want, now);
    }
  }

  lemma SomeoneWants(l: seq<Node>, want: set<Client>, i: nat)
    requires i < |l| && l[i].client in want
    ensures Wanting(l, want) > 0
  {
    WantingAppend(l[..i], l[i..], want);
    assert l[..i] + l[i..] == l;
    WantingAppend([l[i]], l[i + 1..], want);
    assert [l[i]] + l[i + 1..] == l[i..];
  }

  // ---------------------------------------------------------------- a client is added to a key

  function Added(b: Lists, k: Key, n: Node): Lists {
    b[k := (if k in b then b[k] else []) + [n]]
  }

  function CountUp(counts: Counts, k: Key): Counts {
    counts[k := if k in counts then counts[k] + 1 else 1]
  }

  lemma AddCounts(b: Lists, counts: Counts, want: set<Client>, k: Key, n: Node)
    requires CountsAgree(b, counts, want)
    ensures CountsAgree(Added(b, k, n), if n.client in want then CountUp(counts, k) else counts, want)
  {
    var l := if k in b then b[k] else [];
    WantingAppend(l, [n], want);
    assert Wanting([], want) == 0;
    hide Wanting;
    var b1 := Added(b, k, n);
    assert forall k1 | k1 != k :: CountFor(b1, want, k1) == CountFor(b, want, k1);
    assert CountFor(b1, want, k) == CountFor(b, want, k) + if n.client in want then 1 else 0;
    hide CountFor;
  }

  lemma HeldMore(held: Held, c: Client, k: Key, id: nat)
    ensures var held1 := held[c := KeysOf(held, c)[k := id]];
      forall d, k1 :: k1 in KeysOf(held1, d) <==> k1 in KeysOf(held, d) || (d == c && k1 == k)
    ensures var held1 := held[c := KeysOf(held, c)[k := id]];
      forall d, k1 | k1 in KeysOf(held1, d) ::
        KeysOf(held1, d)[k1] == if d == c && k1 == k then id else KeysOf(held, d)[k1]
  {
  }

  lemma AddedLists(b: Lists, k: Key, n: Node, next: nat)
    requires ListsOrdered(b, next) && n.id == next
    ensures var b1 := Added(b, k, n);
      && ListsOrdered(b1, next + 1)
      && (forall k1 :: k1 in b1 <==> k1 in b || k1 == k)
      && forall k1, m :: k1 in b1 && m in b1[k1] <==> (k1 in b && m in b[k1]) || (k1 == k && m == n)
  {
  }

  lemma AddLists(b: Lists, held: Held, k: Key, n: Node, next: nat)
    requires ClientsListed(b, held) && NodesHeld(b, held) && ListsOrdered(b, next)
    requires k !in KeysOf(held, n.client) && n.id == next
    ensures var held1 := held[n.client := KeysOf(held, n.client)[k := n.id]];
      ClientsListed(Added(b, k, n), held1) && NodesHeld(Added(b, k, n), held1) && ListsOrdered(Added(b, k, n), next + 1)
  {
    AddedLists(b, k, n, next);
    HeldMore(held, n.client, k, n.id);
    hide Added, KeysOf, ListsOrdered;
    var b1, held1 := Added(b, k, n), held[n.client := KeysOf(held, n.client)[k := n.id]];
    forall c, k1 | k1 in KeysOf(held1, c)
      ensures k1 in b1 && Node(KeysOf(held1, c)[k1], c) in b1[k1]
    {
      var m := Node(KeysOf(held1, c)[k1], c);
      assert (k1 in b && m in b[k1]) || (k1 == k && m == n);
    }
    forall k1, m: Node | k1 in b1 && m in b1[k1]
      ensures k1 in KeysOf(held1, m.client) && KeysOf(held1, m.client)[k1] == m.id
    {
      assert (k1 in b && m in b[k1]) || (k1 == k && m == n);
    }
  }

  /** blockForKeys for one key: the invariant is kept. */
  lemma AddKeeps(b: Lists, counts: Counts, held: Held, want: set<Client>, next: nat, c: Client, k: Key)
    requires Agree(b, counts, held, want, next) && k !in KeysOf(held, c)
    ensures Agree(Added(b, k, Node(next, c)), if c in want then CountUp(counts, k) else counts,
                  held[c := KeysOf(held, c)[k := next]], want, next + 1)
  {
    AddCounts(b, counts, want, k, Node(next, c));
    AddLists(b, held, k, Node(next, c), next);
    hide ClientsListed, NodesHeld, ListsOrdered, CountsAgree;
  }

  // ---------------------------------------------------------------- a client is taken off a key

  function IndexOf(l: seq<Node>, id: nat): (i: nat)
    ensures i <= |l| && (i < |l| ==> l[i].id == id) && forall j | 0 <= j < i :: l[j].id != id
  {
    if l == [] then 0 else if l[0].id == id then 0 else 1 + IndexOf(l[1..], id)
  }

  /** listUnlinkNode. */
  function Unlinked(l: seq<Node>, id: nat): seq<Node> {
    var i := IndexOf(l, id);
    if i < |l| then l[..i] + l[i + 1..] else l
  }

  /** releaseBlockedEntry: an empty list goes, and its count with it. */
  function Released(b: Lists, k: Key, id: nat): Lists
    requires k in b
  {
    var l := Unlinked(b[k], id);
    if l == [] then b - {k} else b[k := l]
  }

  function CountDown(counts: Counts, b: Lists, k: Key, id: nat, wanted: bool): Counts
    requires k in b
  {
    if Unlinked(b[k], id) == [] then counts - {k}
    else if wanted && k in counts then (if counts[k] <= 1 then counts - {k} else counts[k := counts[k] - 1])
    else counts
  }

  /** The node in the middle of a list. */
  lemma UnlinkAt(l: seq<Node>, n: Node, next: nat) returns (before: seq<Node>, after: seq<Node>)
    requires n in l && Ordered(l, next)
    ensures l == before + [n] + after && Unlinked(l, n.id) == before + after
    ensures n !in before && n !in after && Ordered(before + after, next)
  {
    var i := IndexOf(l, n.id);
    var j :| 0 <= j < |l| && l[j] == n;
    assert i == j;
    before, after := l[..i], l[i + 1..];
  }

  lemma UnlinkNode(l: seq<Node>, n: Node, next: nat, want: set<Client>)
    requires n in l && Ordered(l, next)
    ensures var r := Unlinked(l, n.id);
      && Ordered(r, next) && |r| == |l| - 1
      && (forall m :: m in r <==> m in l && m != n)
      && Wanting(l, want) == Wanting(r, want) + if n.client in want then 1 else 0
  {
    var before, after := UnlinkAt(l, n, next);
    hide Unlinked, Wanting, Ordered;
    WantingAppend(before, after, want);
    WantingAppend(before, [n], want);
    WantingAppend(before + [n], after, want);
  }

  lemma ReleaseCounts(b: Lists, counts: Counts, want: set<Client>, k: Key, n: Node, next: nat)
    requires CountsAgree(b, counts, want) && ListsOrdered(b, next) && k in b && n in b[k]
    ensures CountsAgree(Released(b, k, n.id), CountDown(counts, b, k, n.id, n.client in want), want)
    ensures n.client in want ==> k in counts
  {
    UnlinkNode(b[k], n, next, want);
    var b1, counts1 := Released(b, k, n.id), CountDown(counts, b, k, n.id, n.client in want);
    assert CountFor(b, want, k) == Wanting(b[k], want);
    assert CountFor(b1, want, k) == Wanting(Unlinked(b[k], n.id), want) by {
      assert Wanting([], want) == 0;
    }
    hide Wanting, Unlinked, CountFor, Released;
    assert (k in counts <==> CountFor(b, want, k) > 0) && (k in counts ==> counts[k] == CountFor(b, want, k));
    assert Unlinked(b[k], n.id) == [] ==> CountFor(b1, want, k) == 0;
    assert (k in counts1 <==> CountFor(b1, want, k) > 0) && (k in counts1 ==> counts1[k] == CountFor(b1, want, k));
    hide CountDown;
    forall k1 | k1 != k
      ensures (k1 in counts1 <==> CountFor(b1, want, k1) > 0) && (k1 in counts1 ==> counts1[k1] == CountFor(b1, want, k1))
    {
    }
  }

  lemma ReleasedLists(b: Lists, k: Key, n: Node, next: nat)
    requires ListsOrdered(b, next) && k in b && n in b[k]
    ensures var b1 := Released(b, k, n.id);
      && ListsOrdered(b1, next)
      && (forall k1 :: k1 in b1 ==> k1 in b)
      && forall k1, m :: k1 in b && m in b[k1] && !(k1 == k && m == n) <==> k1 in b1 && m in b1[k1]
  {
    UnlinkNode(b[k], n, next, {});
    hide Unlinked, Wanting, Ordered;
  }

  lemma ReleaseLists(b: Lists, held: Held, k: Key, n: Node, next: nat)
    requires ClientsListed(b, held) && NodesHeld(b, held) && ListsOrdered(b, next) && k in b && n in b[k]
    ensures var b1, held1 := Released(b, k, n.id), held[n.client := KeysOf(held, n.client) - {k}];
      ClientsListed(b1, held1) && NodesHeld(b1, held1) && ListsOrdered(b1, next)
  {
    ReleasedLists(b, k, n, next);
    hide Released, ListsOrdered;
    var b1, held1 := Released(b, k, n.id), held[n.client := KeysOf(held, n.client) - {k}];
    HeldLess(held, n.client, k);
    hide KeysOf;
    forall c, k1 | k1 in KeysOf(held1, c)
      ensures k1 in b1 && Node(KeysOf(held1, c)[k1], c) in b1[k1]
    {
      assert k1 in KeysOf(held, c) && KeysOf(held1, c)[k1] == KeysOf(held, c)[k1];
      var m := Node(KeysOf(held, c)[k1], c);
      assert m in b[k1] && (k1 == k ==> m != n);
    }
    forall k1, m: Node | k1 in b1 && m in b1[k1]
      ensures k1 in KeysOf(held1, m.client) && KeysOf(held1, m.client)[k1] == m.id
    {
      assert m in b[k1] && (k1 == k ==> m != n);
    }
  }

  lemma HeldLess(held: Held, c: Client, k: Key)
    ensures var held1 := held[c := KeysOf(held, c) - {k}];
      forall d, k1 :: k1 in KeysOf(held1, d) <==> k1 in KeysOf(held, d) && !(d == c && k1 == k)
    ensures var held1 := held[c := KeysOf(held, c) - {k}];
      forall d, k1 | k1 in KeysOf(held1, d) :: KeysOf(held1, d)[k1] == KeysOf(held, d)[k1]
  {
  }

  /** Taking a client off one of its keys: the invariant is kept, and the two assertions of the source hold:
      the key has a list, and a client that wants to wake up is counted. */
  lemma ReleaseKeeps(b: Lists, counts: Counts, held: Held, want: set<Client>, next: nat, c: Client, k: Key)
    requires Agree(b, counts, held, want, next) && k in KeysOf(held, c)
    ensures k in b && (c in want ==> k in counts)
    ensures Agree(Released(b, k, KeysOf(held, c)[k]), CountDown(counts, b, k, KeysOf(held, c)[k], c in want),
                  held[c := KeysOf(held, c) - {k}], want, next)
  {
    var n := Node(KeysOf(held, c)[k], c);
    ReleaseCounts(b, counts, want, k, n, next);
    ReleaseLists(b, held, k, n, next);
    hide NodesHeld, ListsOrdered, CountsAgree, Released, CountDown, ClientsListed;
  }

  /** The flag of a client that waits for nothing. */
  lemma FlagKeeps(b: Lists, counts: Counts, held: Held, want: set<Client>, now: set<Client>, next: nat, c: Client)
    requires Agree(b, counts, held, want, next) && KeysOf(held, c) == map[]
    requires forall d | d != c :: d in want <==> d in now
    ensures Agree(b, counts, held, now, next)
  {
    forall k | k in b
      ensures Wanting(b[k], now) == Wanting(b[k], want)
    {
      forall i | 0 <= i < |b[k]|
        ensures b[k][i].client != c
      {
        assert b[k][i] in b[k];
      }
      WantingSame(b[k], want, now);
    }
    hide Wanting;
  }
}
