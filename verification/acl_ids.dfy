/** The command IDs that index a selector's bitmap. */
module AclCommandIds {
  import opened AclText
  import opened AclSemantics

  /** No two names share an ID, and none has the reserved one. */
  ghost predicate Assigned(ids: map<string, nat>) {
    && (forall n | n in ids :: ids[n] != RESERVED)
    && (forall m, n | m in ids && n in ids && m != n :: ids[m] != ids[n])
  }

  /** The full name of a subcommand. */
  function FullName(name: string, sub: string): string {
    name + "|" + sub
  }

  /** Every command and subcommand of the table has the ID of its full name. */
  ghost predicate Numbered(cat: Catalog, ids: map<string, nat>) {
    forall n | n in cat.commands ::
      && n in ids && cat.commands[n].id == ids[n]
      && forall s | s in cat.commands[n].subs ::
           FullName(n, s) in ids && cat.commands[n].subs[s].id == ids[FullName(n, s)]
  }

  /** A table with proper names whose IDs come from GetCommandID is well-formed: no command or subcommand
      has the reserved bit, no subcommand shares the ID of a command, and no two commands share one. */
  lemma NumberedIsWellFormed(cat: Catalog, ids: map<string, nat>)
    requires Assigned(ids) && Numbered(cat, ids)
    requires forall n | n in cat.commands :: ProperCommand(n, cat.commands[n])
    requires forall n | n in cat.categories :: ProperCategory(n)
    ensures WellFormed(cat) && DistinctIds(cat)
  {
    forall n | n in cat.commands
      ensures WellFormedCommand(cat, n, cat.commands[n])
    {
      var cmd := cat.commands[n];
      forall s | s in cmd.subs
        ensures cmd.subs[s].id != RESERVED && !IsCommandId(cat, cmd.subs[s].id)
      {
        var full := FullName(n, s);
        forall m | m in cat.commands
          ensures cat.commands[m].id != cmd.subs[s].id
        {
          assert full[|n|] == '|' && ProperCommand(m, cat.commands[m]);
        }
      }
    }
  }

  class CommandIds {
    var ids: map<string, nat>
    var nextId: nat

    /** IDs are distinct and below the next one, which skips the reserved bit. */
    ghost predicate Valid()
      reads this
    {
      && nextId == |ids| + (if |ids| >= RESERVED then 1 else 0)
      && Assigned(ids) && forall n | n in ids :: ids[n] < nextId
    }

    constructor ()
      ensures Valid() && ids == map[]
    {
      ids, nextId := map[], 0;
    }

    /** ACLGetCommandID: a name keeps its ID, whatever its case. */
    method GetCommandID(name: string) returns (id: nat)
      requires Valid()
      modifies this
      ensures Valid() && id != RESERVED && (|ids| < COMMAND_BITS ==> id < COMMAND_BITS)
      ensures ids == old(ids)[Lower(name) := id]
      ensures Lower(name) in old(ids) ==> id == old(ids)[Lower(name)]
      ensures Lower(name) !in old(ids) ==> forall n | n in old(ids) :: old(ids)[n] != id
    {
      var lower := Lower(name);
      if lower in ids {
        return ids[lower];
      }
      ids := ids[lower := nextId];
      id := nextId;
      nextId := nextId + 1;
      if nextId == COMMAND_BITS - 1 {
        nextId := nextId + 1;
      }
    }
  }
}
