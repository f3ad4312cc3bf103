/** The part of the keyspace a slot migration talks about: the content of each hash slot, the
    commands that reach the replication stream, and the snapshot that starts a migration. */
module AsmKeyspace {

  /** The keys and values of one slot. */
  type Data = map<string, string>

  /** A node's database, slot by slot; a slot that is not mentioned is empty. */
  type Content = map<int, Data>

  function At(c: Content, slot: int): Data {
    if slot in c then c[slot] else map[]
  }

  /** Two nodes hold the same keys and values in all of `slots`. */
  ghost predicate SameOn(slots: set<int>, a: Content, b: Content) {
    forall s | s in slots :: At(a, s) == At(b, s)
  }

  /** A propagated command: its keys live in one slot and it transforms that slot in a deterministic
      way, or it is a cross-slot command replicated by a module, or it has no keys. `bytes` is the
      length of its encoding on the wire. */
  datatype Command =
    | Single(slot: int, effect: Data -> Data, bytes: nat)
    | CrossSlot(run: Content -> Content)
    | Keyless

  function Execute(c: Content, cmd: Command): Content {
    match cmd
    case Single(s, effect, _) => c[s := effect(At(c, s))]
    case CrossSlot(run) => run(c)
    case Keyless => c
  }

  /** What travels on the main channel of a migration: fed commands and the final STREAM-EOF. */
  datatype Message = Feed(slot: int, effect: Data -> Data, bytes: nat) | StreamEof(bytes: nat)

  function Apply(c: Content, m: Message): Content {
    match m
    case Feed(s, effect, _) => c[s := effect(At(c, s))]
    case StreamEof(_) => c
  }

  /** The content after the first `n` messages of `stream`, starting from `base`. */
  function ReplayTo(stream: seq<Message>, n: nat, base: Content): Content
    requires n <= |stream|
  {
    if n == 0 then base else Apply(ReplayTo(stream, n - 1, base), stream[n - 1])
  }

  /** The length in bytes of the first `n` messages of `stream`. */
  function BytesTo(stream: seq<Message>, n: nat): nat
    requires n <= |stream|
  {
    if n == 0 then 0 else BytesTo(stream, n - 1) + stream[n - 1].bytes
  }

  lemma {:induction false} ReplayToAppend(stream: seq<Message>, m: Message, n: nat, base: Content)
    requires n <= |stream|
    ensures ReplayTo(stream + [m], n, base) == ReplayTo(stream, n, base)
    decreases n
  {
    if n > 0 {
      ReplayToAppend(stream, m, n - 1, base);
    }
  }

  lemma {:induction false} BytesToAppend(stream: seq<Message>, m: Message, n: nat)
    requires n <= |stream|
    ensures BytesTo(stream + [m], n) == BytesTo(stream, n)
    decreases n
  {
    if n > 0 {
      BytesToAppend(stream, m, n - 1);
    }
  }

  lemma {:induction false} BytesToMonotone(stream: seq<Message>, i: nat, j: nat)
    requires i <= j <= |stream|
    ensures BytesTo(stream, i) <= BytesTo(stream, j)
    decreases j
  {
    if i < j {
      BytesToMonotone(stream, i, j - 1);
    }
  }

  /** One element of the snapshot channel. RESTORE answers BUSYKEY and changes nothing when the key
      is already there. */
  datatype Item = Restore(slot: int, key: string, value: string) | SlotInfo

  function Restored(c: Content, item: Item): Content {
    match item
    case Restore(s, k, v) => if k in At(c, s) then c else c[s := At(c, s)[k := v]]
    case SlotInfo => c
  }

  /** The content built by the first `n` items on an empty database. */
  function RestoredTo(items: seq<Item>, n: nat): Content
    requires n <= |items|
  {
    if n == 0 then map[] else Restored(RestoredTo(items, n - 1), items[n - 1])
  }

  /** `items` lists every key of `slots` in `base` once, with its value, and nothing else. */
  ghost predicate IsSnapshot(items: seq<Item>, base: Content, slots: set<int>) {
    && (forall i | 0 <= i < |items| && items[i].Restore? ::
          items[i].slot in slots && items[i].key in At(base, items[i].slot) &&
          At(base, items[i].slot)[items[i].key] == items[i].value)
    && (forall i, j | 0 <= i < j < |items| && items[i].Restore? && items[j].Restore? ::
          (items[i].slot, items[i].key) != (items[j].slot, items[j].key))
    && (forall s, k | s in slots && k in At(base, s) :: Listed(items, |items|, s, k))
  }

  ghost predicate Listed(items: seq<Item>, n: nat, slot: int, key: string)
    requires n <= |items|
  {
    exists i :: 0 <= i < n && items[i].Restore? && items[i].slot == slot && items[i].key == key
  }

  /** After `n` items a slot holds exactly the keys listed so far, with the values of `base`. */
  lemma {:induction false} RestoredToKeys(items: seq<Item>, n: nat, base: Content, slots: set<int>, s: int)
    requires IsSnapshot(items, base, slots) && n <= |items| && s in slots
    ensures forall k :: k in At(RestoredTo(items, n), s) <==> Listed(items, n, s, k)
    ensures forall k | k in At(RestoredTo(items, n), s) ::
              k in At(base, s) && At(RestoredTo(items, n), s)[k] == At(base, s)[k]
    decreases n
  {
    if n > 0 {
      RestoredToKeys(items, n - 1, base, slots, s);
      var before, after := RestoredTo(items, n - 1), RestoredTo(items, n);
      forall k
        ensures k in At(after, s) <==> Listed(items, n, s, k)
      {
        if Listed(items, n - 1, s, k) {
          assert Listed(items, n, s, k);
        }
        if items[n - 1].Restore? && items[n - 1].slot == s && items[n - 1].key == k {
          assert Listed(items, n, s, k);
        }
      }
    }
  }

  /** A complete snapshot applied to empty slots rebuilds the source's slots. */
  lemma SnapshotRestores(items: seq<Item>, base: Content, slots: set<int>)
    requires IsSnapshot(items, base, slots)
    ensures SameOn(slots, RestoredTo(items, |items|), base)
  {
    forall s | s in slots
      ensures At(RestoredTo(items, |items|), s) == At(base, s)
    {
      RestoredToKeys(items, |items|, base, slots, s);
    }
  }
}
