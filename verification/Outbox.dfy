/** The persistent producer outbox of src/navigator_eventbus/outbox.py.
  *
  * The table is a map from event id to row. Where SQL leaves the order of rows with equal creation
  * times open, so does the model: any of them may be the oldest.
  */
module Outbox {
  import opened Collections

  /** decodable says whether the stored envelope can be read back. */
  datatype Row = Row(decodable: bool, createdAt: real, attempts: nat, nextTryAt: real, lastError: string)

  type Table = map<EventId, Row>

  datatype Overflow = RejectNew | DropOldest

  datatype Settings = Settings(maxRows: int, maxAge: real, overflow: Overflow)

  // ---------------------------------------------------------------------
  // What each statement does to the table
  // ---------------------------------------------------------------------

  /** Neither may precede the other only when their creation times are equal. */
  predicate Before(rows: Table, a: EventId, b: EventId) {
    a in rows && b in rows && rows[a].createdAt <= rows[b].createdAt
  }

  /** An element of a set of rows that ORDER BY created_at LIMIT 1 may return. */
  ghost predicate IsOldest(rows: Table, among: set<EventId>, id: EventId) {
    id in among && forall k :: k in among ==> Before(rows, id, k)
  }

  /** At the row cap. */
  predicate AtCap(cfg: Settings, rows: Table) {
    |rows| >= cfg.maxRows
  }

  /** The row evicted to admit a new one, given the row the database picks as oldest. */
  function Victim(cfg: Settings, rows: Table, oldest: Option<EventId>): Option<EventId> {
    if AtCap(cfg, rows) && cfg.overflow.DropOldest? then oldest else None
  }

  function Without(rows: Table, victim: Option<EventId>): Table {
    if victim.Some? then rows - {victim.value} else rows
  }

  function Count(victim: Option<EventId>): nat {
    if victim.Some? then 1 else 0
  }

  /** oldest is what the database may pick: nothing from an empty table. */
  ghost predicate MayPick(rows: Table, oldest: Option<EventId>) {
    match oldest
    case None => rows == map[]
    case Some(id) => IsOldest(rows, rows.Keys, id)
  }

  lemma SomePick(rows: Table) returns (oldest: Option<EventId>)
    ensures MayPick(rows, oldest)
  {
    if rows == map[] {
      oldest := None;
    } else {
      var m := OldestExists(rows, rows.Keys);
      oldest := Some(m);
    }
  }

  function NewRow(decodable: bool, now: real): Row {
    Row(decodable, now, 0, now, "")
  }

  function InsertOrIgnore(rows: Table, id: EventId, row: Row): Table {
    if id in rows then rows else rows[id := row]
  }

  /** append: None when the row cap rejects it. */
  function AppendRows(cfg: Settings, rows: Table, id: EventId, row: Row, oldest: Option<EventId>): Option<Table> {
    if AtCap(cfg, rows) && cfg.overflow.RejectNew? then None
    else Some(InsertOrIgnore(Without(rows, Victim(cfg, rows, oldest)), id, row))
  }

  function NackRows(rows: Table, id: EventId, error: string, nextTryAt: real): Table {
    if id in rows then
      rows[id := rows[id].(attempts := rows[id].attempts + 1, lastError := error, nextTryAt := nextTryAt)]
    else rows
  }

  function Expired(cfg: Settings, rows: Table, now: real): set<EventId> {
    set id | id in rows && rows[id].createdAt < now - cfg.maxAge
  }

  function Kept(cfg: Settings, rows: Table, now: real): Table {
    rows - Expired(cfg, rows, now)
  }

  function DueIds(rows: Table, now: real): set<EventId> {
    set id | id in rows && rows[id].nextTryAt <= now
  }

  /** A result of SELECT ... WHERE next_try_at <= now ORDER BY created_at LIMIT limit. */
  ghost predicate IsSelection(rows: Table, now: real, limit: nat, sel: seq<EventId>) {
    && Distinct(sel) && Elements(sel) <= DueIds(rows, now)
    && |sel| == (if |DueIds(rows, now)| <= limit then |DueIds(rows, now)| else limit)
    && (forall i, j :: 0 <= i < j < |sel| ==> Before(rows, sel[i], sel[j]))
    && (forall s, id :: s in sel && id in DueIds(rows, now) && id !in sel ==> Before(rows, s, id))
  }

  lemma SelectedAreRows(rows: Table, now: real, limit: nat, sel: seq<EventId>)
    requires IsSelection(rows, now, limit, sel)
    ensures Distinct(sel) && Elements(sel) <= rows.Keys
  {
  }

  function Corrupt(rows: Table, sel: seq<EventId>): set<EventId> {
    set id | id in sel && id in rows && !rows[id].decodable
  }

  /** The selected rows that decode, in order. */
  function Decoded(rows: Table, sel: seq<EventId>): seq<EventId> {
    if sel == [] then []
    else
      var last := sel[|sel| - 1];
      Decoded(rows, sel[..|sel| - 1]) + if last in rows && rows[last].decodable then [last] else []
  }

  lemma {:induction false} OldestExists(rows: Table, among: set<EventId>) returns (m: EventId)
    requires among != {} && among <= rows.Keys
    ensures IsOldest(rows, among, m)
  {
    m :| m in among;
    if among != {m} {
      var r := OldestExists(rows, among - {m});
      var kept := if Before(rows, m, r) then m else r;
      forall k | k in among ensures Before(rows, kept, k) {
        assert k == m || k in among - {m};
      }
      m := kept;
    }
  }

  lemma DecodedStep(rows: Table, sel: seq<EventId>, i: nat)
    requires Distinct(sel) && i < |sel| && sel[i] in rows
    ensures sel[i] !in Corrupt(rows, sel[..i])
    ensures Corrupt(rows, sel[..i + 1]) == Corrupt(rows, sel[..i]) + if rows[sel[i]].decodable then {} else {sel[i]}
    ensures Decoded(rows, sel[..i + 1]) == Decoded(rows, sel[..i]) + if rows[sel[i]].decodable then [sel[i]] else []
  {
    assert sel[..i + 1] == sel[..i] + [sel[i]] && sel[..i + 1][..i] == sel[..i];
  }

  lemma SelectedStep(rows: Table, sel: seq<EventId>, i: nat)
    requires Elements(sel) <= rows.Keys && i < |sel|
    ensures sel[i] in rows
  {
    assert sel[i] in Elements(sel);
  }

  lemma {:induction false} RemoveCard(rows: Table, ids: set<EventId>)
    requires ids <= rows.Keys
    ensures |rows - ids| == |rows| - |ids|
  {
    assert (rows - ids).Keys == rows.Keys - ids;
    assert |rows.Keys - ids| == |rows.Keys| - |ids|;
  }

  lemma RemoveMore(rows: Table, ids: set<EventId>, more: set<EventId>)
    ensures rows - ids - more == rows - (ids + more)
  {
  }

  // ---------------------------------------------------------------------
  // The store
  // ---------------------------------------------------------------------

  datatype Counters = Counters(expired: nat, dropped: nat, rejected: nat, corrupt: nat)

  class SqliteOutbox {
    const cfg: Settings
    var rows: Table
    var open: bool
    var pending: int
    var counters: Counters
    // history since construction
    ghost const initial: nat
    ghost var inserted: nat
    ghost var acked: nat

    /** While the connection is open the cached count is the row count; every row ever present is
      * accounted for; and the cap holds unless the table started above it. */
    ghost predicate Valid()
      reads this
    {
      && (open ==> pending == |rows|)
      && initial + inserted == |rows| + acked + counters.dropped + counters.expired + counters.corrupt
      && (cfg.maxRows >= 1 ==> |rows| <= initial || |rows| <= cfg.maxRows)
    }

    /** Opening a store on a database file that already holds some rows. */
    constructor (cfg: Settings, rows: Table)
      ensures Valid() && this.cfg == cfg && this.rows == rows && !open
      ensures counters == Counters(0, 0, 0, 0) && initial == |rows| && inserted == 0 && acked == 0
    {
      this.cfg := cfg;
      this.rows := rows;
      open, pending := false, 0;
      counters := Counters(0, 0, 0, 0);
      initial, inserted, acked := |rows|, 0, 0;
    }

    /** Connect lazily and load the pending count. */
    method EnsureConn()
      requires Valid()
      modifies this`open, this`pending
      ensures Valid() && open
    {
      if !open {
        pending := |rows|;
        open := true;
      }
    }

    /** ORDER BY created_at LIMIT 1 over some rows. */
    method Oldest(among: set<EventId>) returns (oldest: EventId)
      requires among != {} && among <= rows.Keys
      ensures IsOldest(rows, among, oldest)
    {
      oldest :| oldest in among;
      var left := among - {oldest};
      while left != {}
        invariant left <= among && oldest in among
        invariant forall k :: k in among - left ==> Before(rows, oldest, k)
        decreases left
      {
        var id :| id in left;
        ghost var before := oldest;
        if !Before(rows, oldest, id) {
          oldest := id;
        }
        forall k | k in among - left + {id} ensures Before(rows, oldest, k) {
          assert k != id ==> Before(rows, before, k);
        }
        left := left - {id};
      }
    }

    /** The part of append that runs at the cap under drop_oldest. */
    method EvictOldest() returns (oldest: Option<EventId>)
      requires Valid() && open
      modifies this`rows, this`pending, this`counters
      ensures Valid()
      ensures MayPick(old(rows), oldest)
      ensures rows == Without(old(rows), oldest)
      ensures |rows| == |old(rows)| - Count(oldest)
      ensures counters == old(counters).(dropped := old(counters).dropped + Count(oldest))
    {
      oldest := None;
      if rows != map[] {
        var victim := Oldest(rows.Keys);
        oldest := Some(victim);
        RemoveCard(rows, {victim});
        rows := rows - {victim};
        pending := pending - 1;
        counters := counters.(dropped := counters.dropped + 1);
      }
    }

    /** INSERT OR IGNORE, below the cap. */
    method Insert(id: EventId, decodable: bool, now: real)
      requires Valid() && open && (cfg.maxRows >= 1 ==> |rows| < cfg.maxRows || |rows| < initial)
      modifies this`rows, this`pending, this`inserted
      ensures Valid() && rows == InsertOrIgnore(old(rows), id, NewRow(decodable, now))
      ensures inserted == old(inserted) + if id in old(rows) then 0 else 1
    {
      if id !in rows {
        rows := rows[id := NewRow(decodable, now)];
        pending := pending + 1;
        inserted := inserted + 1;
      }
    }

    method Append(id: EventId, decodable: bool, now: real) returns (ok: bool, ghost oldest: Option<EventId>)
      requires Valid()
      modifies this
      ensures Valid() && open
      ensures MayPick(old(rows), oldest)
      ensures var next := AppendRows(cfg, old(rows), id, NewRow(decodable, now), oldest);
              && ok == next.Some?
              && rows == (if ok then next.value else old(rows))
      ensures !ok ==> counters == old(counters).(rejected := old(counters).rejected + 1)
      ensures ok ==>
                counters == old(counters).(dropped := old(counters).dropped + Count(Victim(cfg, old(rows), oldest)))
      ensures inserted == old(inserted) +
                          if ok && id !in Without(old(rows), Victim(cfg, old(rows), oldest)) then 1 else 0
      ensures acked == old(acked)
    {
      EnsureConn();
      oldest := SomePick(rows);
      if pending < cfg.maxRows {
        assert Victim(cfg, rows, oldest) == None;
        assert AppendRows(cfg, rows, id, NewRow(decodable, now), oldest)
            == Some(InsertOrIgnore(rows, id, NewRow(decodable, now)));
        Insert(id, decodable, now);
        return true, oldest;
      }
      if cfg.overflow.RejectNew? {
        counters := counters.(rejected := counters.rejected + 1);
        return false, oldest;
      }
      var victim := EvictOldest();
      oldest := victim;
      assert Victim(cfg, old(rows), victim) == victim;
      assert AppendRows(cfg, old(rows), id, NewRow(decodable, now), oldest)
          == Some(InsertOrIgnore(Without(old(rows), victim), id, NewRow(decodable, now)));
      Insert(id, decodable, now);
      ok := true;
    }

    method Ack(id: EventId)
      requires Valid()
      modifies this
      ensures Valid() && open && rows == old(rows) - {id} && counters == old(counters)
      ensures inserted == old(inserted) && acked == old(acked) + (if id in old(rows) then 1 else 0)
    {
      EnsureConn();
      if id in rows {
        RemoveCard(rows, {id});
        pending := pending - 1;
        acked := acked + 1;
      }
      rows := rows - {id};
    }

    method Nack(id: EventId, error: string, nextTryAt: real)
      requires Valid()
      modifies this
      ensures Valid() && open && rows == NackRows(old(rows), id, error, nextTryAt) && counters == old(counters)
      ensures rows.Keys == old(rows).Keys && forall k :: k in rows && k != id ==> rows[k] == old(rows)[k]
      ensures id in rows ==>
                && rows[id].attempts == old(rows)[id].attempts + 1
                && rows[id].lastError == error && rows[id].nextTryAt == nextTryAt
                && rows[id].createdAt == old(rows)[id].createdAt && rows[id].decodable == old(rows)[id].decodable
      ensures inserted == old(inserted) && acked == old(acked)
    {
      EnsureConn();
      if id in rows {
        assert rows[id := rows[id].(attempts := rows[id].attempts + 1, lastError := error, nextTryAt := nextTryAt)].Keys
            == rows.Keys;
      }
      rows := NackRows(rows, id, error, nextTryAt);
    }

    /** DELETE ... WHERE created_at < now - max_age. */
    method Purge(now: real)
      requires Valid() && open
      modifies this
      ensures Valid() && open && rows == Kept(cfg, old(rows), now)
      ensures counters == old(counters).(expired := old(counters).expired + |Expired(cfg, old(rows), now)|)
      ensures inserted == old(inserted) && acked == old(acked)
    {
      var stale := Expired(cfg, rows, now);
      RemoveCard(rows, stale);
      rows := rows - stale;
      pending := pending - |stale|;
      counters := counters.(expired := counters.expired + |stale|);
    }

    /** SELECT ... WHERE next_try_at <= now ORDER BY created_at LIMIT limit. */
    method Select(now: real, limit: nat) returns (sel: seq<EventId>)
      ensures IsSelection(rows, now, limit, sel)
    {
      sel := [];
      var left := DueIds(rows, now);
      while left != {} && |sel| < limit
        invariant left <= DueIds(rows, now) && |sel| + |left| == |DueIds(rows, now)| && |sel| <= limit
        invariant Distinct(sel) && Elements(sel) == DueIds(rows, now) - left
        invariant forall i, j :: 0 <= i < j < |sel| ==> Before(rows, sel[i], sel[j])
        invariant forall s, x :: s in sel && x in left ==> Before(rows, s, x)
        decreases left
      {
        var id := Oldest(left);
        assert id !in Elements(sel);
        ElementsAppend(sel, id);
        sel := sel + [id];
        left := left - {id};
      }
      forall s, x | s in sel && x in DueIds(rows, now) && x !in sel ensures Before(rows, s, x) {
        assert x !in Elements(sel);
      }
    }

    /** The first i chosen rows have been looked at. */
    ghost predicate DecodedUpTo(before: Table, counted: Counters, chosen: seq<EventId>, i: nat, result: seq<EventId>)
      requires i <= |chosen|
      reads this
    {
      && result == Decoded(before, chosen[..i])
      && rows == before - Corrupt(before, chosen[..i])
      && counters == counted.(corrupt := counted.corrupt + |Corrupt(before, chosen[..i])|)
    }

    /** The decoding loop of due: a row that does not decode is deleted as it is met. */
    method Decode(chosen: seq<EventId>) returns (result: seq<EventId>)
      requires Valid() && open && Distinct(chosen) && Elements(chosen) <= rows.Keys
      modifies this`rows, this`pending, this`counters
      ensures Valid()
      ensures result == Decoded(old(rows), chosen)
      ensures rows == old(rows) - Corrupt(old(rows), chosen)
      ensures counters == old(counters).(corrupt := old(counters).corrupt + |Corrupt(old(rows), chosen)|)
    {
      result := [];
      for i := 0 to |chosen|
        invariant Valid() && DecodedUpTo(old(rows), old(counters), chosen, i, result)
      {
        result := DecodeNext(old(rows), old(counters), chosen, i, result);
      }
      assert chosen[..|chosen|] == chosen;
    }

    method DecodeNext(ghost before: Table, ghost counted: Counters, chosen: seq<EventId>, i: nat, result: seq<EventId>)
      returns (next: seq<EventId>)
      requires Valid() && open && Distinct(chosen) && Elements(chosen) <= before.Keys && i < |chosen|
      requires DecodedUpTo(before, counted, chosen, i, result)
      modifies this`rows, this`pending, this`counters
      ensures Valid() && DecodedUpTo(before, counted, chosen, i + 1, next)
    {
      var id := chosen[i];
      SelectedStep(before, chosen, i);
      DecodedStep(before, chosen, i);
      var ok := DecodeRow(id);
      RemoveMore(before, Corrupt(before, chosen[..i]), if ok then {} else {id});
      next := result + if ok then [id] else [];
    }

    method DecodeRow(id: EventId) returns (ok: bool)
      requires Valid() && open && id in rows
      modifies this`rows, this`pending, this`counters
      ensures Valid() && ok == old(rows)[id].decodable
      ensures rows == old(rows) - if ok then {} else {id}
      ensures counters == old(counters).(corrupt := old(counters).corrupt + if ok then 0 else 1)
    {
      ok := rows[id].decodable;
      if !ok {
        RemoveCard(rows, {id});
        rows := rows - {id};
        pending := pending - 1;
        counters := counters.(corrupt := counters.corrupt + 1);
      }
    }

    /** Rows to relay at time now: expired rows are purged, then the oldest due rows are read. */
    method Due(now: real, limit: nat) returns (result: seq<EventId>, ghost sel: seq<EventId>)
      requires Valid()
      modifies this
      ensures Valid() && open
      ensures IsSelection(Kept(cfg, old(rows), now), now, limit, sel)
      ensures result == Decoded(Kept(cfg, old(rows), now), sel)
      ensures rows == Kept(cfg, old(rows), now) - Corrupt(Kept(cfg, old(rows), now), sel)
      ensures counters == old(counters).(
                            expired := old(counters).expired + |Expired(cfg, old(rows), now)|,
                            corrupt := old(counters).corrupt + |Corrupt(Kept(cfg, old(rows), now), sel)|)
      ensures inserted == old(inserted) && acked == old(acked)
    {
      EnsureConn();
      Purge(now);
      ghost var kept, counted := rows, counters;
      var chosen := Select(now, limit);
      SelectedAreRows(rows, now, limit, chosen);
      result := Decode(chosen);
      assert rows == kept - Corrupt(kept, chosen);
      assert counters == counted.(corrupt := counted.corrupt + |Corrupt(kept, chosen)|);
      sel := chosen;
    }

    method Close()
      requires Valid()
      modifies this`open
      ensures Valid() && !open
    {
      open := false;
    }

    /** The cached figures: the pending one is the row count once the store has been opened. */
    method Stats() returns (pending: int, counters: Counters)
      requires Valid()
      ensures open ==> pending == |rows|
      ensures counters == this.counters
    {
      pending, counters := this.pending, this.counters;
    }
  }

  // ---------------------------------------------------------------------
  // Appending an id that is already there
  // ---------------------------------------------------------------------

  /** Re-append of a present id leaves the table unchanged if and only if the table is below the cap:
    * at the cap it is rejected, or it first evicts a row. The one exception is a row that evicts
    * itself and is written again with the very same contents. */
  lemma ReappendUnchangedIff(cfg: Settings, rows: Table, id: EventId, row: Row, oldest: Option<EventId>)
    requires id in rows && MayPick(rows, oldest)
    ensures AppendRows(cfg, rows, id, row, oldest) == Some(rows) <==>
            (!AtCap(cfg, rows) || (cfg.overflow.DropOldest? && oldest == Some(id) && row == rows[id]))
  {
    if AtCap(cfg, rows) && cfg.overflow.DropOldest? {
      var next := AppendRows(cfg, rows, id, row, oldest).value;
      var victim := oldest.value;
      assert victim in rows;
      if victim == id {
        assert next == rows[id := row];
        assert rows[id := rows[id]] == rows;
        assert next[id] == row;
      } else {
        assert victim !in next;
      }
    }
  }
}
