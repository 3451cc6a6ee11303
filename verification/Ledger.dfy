/** The ledger's entries as they are read, heading and fields parsed: scripts/ledgerboard.py's entries and
    parse_blocked give these. */
module Ledger {
  import opened Common
  import opened RankLines

  /** One name of a Blocked by field: `TD-NNN`, or another repo's `<repo>#TD-NNN`. */
  datatype Item = Local(id: string) | Cross(name: string)

  /** A Blocked by field: the entries named, who is to decide, and what cannot be read. */
  datatype Blocked = Blocked(items: seq<Item>, decisions: seq<string>, unreadable: seq<string>)

  datatype LedgerEntry = LedgerEntry(id: string, priority: string, kind: string, blocked: Option<Blocked>) {
    function Num(): nat {
      RankLines.Num(id)
    }

    /** The entries named; none without the field. */
    function Names(): seq<Item> {
      if blocked.Some? then blocked.value.items else []
    }
  }

  function IdsOf(ents: seq<LedgerEntry>): seq<string> {
    seq(|ents|, i requires 0 <= i < |ents| => ents[i].id)
  }

  /** The first id of a number, as a name of that number is read: `TD-7` is `TD-007`. */
  function Present(ids: seq<string>, n: nat): Option<string> {
    var i := IndexFrom(ids, (t: string) => Num(t) == n, 0);
    if i < |ids| then Some(ids[i]) else None
  }
}
