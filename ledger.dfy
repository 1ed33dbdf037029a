/** The participantes table of the raffle and what the two writing
    handlers of server.js do to it: POST /api/rifa (one slot, arbitrated
    by the caller's admin flag) and POST /api/import (a batch of upserts
    in one transaction). Requests are taken one at a time. */
module Ledger {

  datatype Option<T> = None | Some(value: T)

  /** The columns of a row other than its key. */
  datatype Slot = Slot(nombre: string, telefono: string, status: string, cobrador: string, validado: bool)

  /** A row with its key: a request body, an element of an import array
      or a value of the listing. */
  datatype Participante = Participante(id: nat, nombre: string, telefono: string, status: string, cobrador: string, validado: bool)

  /** The participantes table: slot id to row. An id without a row is a free slot. */
  type Table = map<nat, Slot>

  const Libre: string := "libre"

  datatype WriteOutcome =
    | Saved          // 200 {ok: true}
    | Unavailable    // 403 "Esta casilla ya no está disponible"
    | StorageError   // 500, a query failed

  datatype WriteStep = WriteStep(outcome: WriteOutcome, table: Table)

  /** The body of POST /api/import: an array of records, or anything else. */
  datatype ImportBody = Records(datos: seq<Participante>) | NotArray

  datatype ImportOutcome =
    | Imported(count: nat)   // 200 {success: true, count}
    | Unauthorized           // 401 "No autorizado"
    | InvalidFormat          // 400 "Formato inválido"
    | RolledBack             // 500 after rollback

  datatype ImportStep = ImportStep(outcome: ImportOutcome, table: Table)

  /** The branch POST /api/rifa takes after looking the id up. */
  datatype Branch = Reject | Release | Store

  function Arbitrate(isAdmin: bool, occupied: bool, status: string): (b: Branch)
    // Only a guest is ever refused, and only for an id that has a row.
    ensures b == Reject <==> !isAdmin && occupied
    // 'libre' deletes only when an admin sends it, whether the id has a row or not.
    ensures b == Release <==> isAdmin && status == Libre
  {
    if !isAdmin && occupied then Reject
    else if isAdmin && status == Libre then Release
    else Store
  }

  function SlotOf(p: Participante, validado: bool): Slot
  {
    Slot(p.nombre, p.telefono, p.status, p.cobrador, validado)
  }

  function RowOf(id: nat, s: Slot): Participante
  {
    Participante(id, s.nombre, s.telefono, s.status, s.cobrador, s.validado)
  }

  /** INSERT ... ON DUPLICATE KEY UPDATE: a new row for p.id, or every
      column of the existing one replaced; no other row is touched. */
  function Upsert(t: Table, p: Participante, validado: bool): (r: Table)
    ensures r.Keys == t.Keys + {p.id}
    ensures r[p.id] == SlotOf(p, validado)
    ensures forall k :: k in t && k != p.id ==> r[k] == t[k]
  {
    t[p.id := SlotOf(p, validado)]
  }

  /** POST /api/rifa when every query succeeds. */
  function WriteEffect(t: Table, isAdmin: bool, p: Participante): (r: WriteStep)
    // A guest may only write an id that has no row; otherwise nothing changes.
    ensures !isAdmin && p.id in t ==> r.outcome == Unavailable && r.table == t
    // Every other write succeeds, whatever status it carries.
    ensures isAdmin || p.id !in t ==> r.outcome == Saved
    // No row but p.id's can change.
    ensures forall k :: k != p.id ==> (k in r.table <==> k in t)
    ensures forall k :: k != p.id && k in t ==> r.table[k] == t[k]
    // An admin writing 'libre' leaves no row, whether there was one or not.
    ensures isAdmin && p.status == Libre ==> p.id !in r.table
    // Any other accepted write fully replaces the row; validado survives only for an admin.
    ensures r.outcome == Saved && !(isAdmin && p.status == Libre) ==>
              p.id in r.table && r.table[p.id] == SlotOf(p, isAdmin && p.validado)
  {
    match Arbitrate(isAdmin, p.id in t, p.status)
    case Reject => WriteStep(Unavailable, t)
    case Release => WriteStep(Saved, t - {p.id})
    case Store => WriteStep(Saved, Upsert(t, p, isAdmin && p.validado))
  }

  /** Writing 'libre' as admin a second time changes nothing more. */
  lemma ReleaseIdempotent(t: Table, p: Participante)
    requires p.status == Libre
    ensures WriteEffect(WriteEffect(t, true, p).table, true, p) == WriteEffect(t, true, p)
  {
    var once := WriteEffect(t, true, p).table;
    var twice := WriteEffect(once, true, p).table;
    assert once.Keys == twice.Keys;
  }

  /** A guest write never leaves a validated row it did not find. */
  lemma GuestNeverValidates(t: Table, p: Participante)
    ensures var r := WriteEffect(t, false, p).table;
            forall k :: k in r && r[k].validado ==> k in t && t[k] == r[k]
  {
  }

  /** A guest may write 'libre' to a free slot: the write is accepted and
      stores a row whose status is 'libre', so a stored row does not
      imply an occupied slot. */
  lemma GuestMayStoreLibre(t: Table, p: Participante)
    requires p.id !in t && p.status == Libre
    ensures WriteEffect(t, false, p).outcome == Saved
    ensures p.id in WriteEffect(t, false, p).table
    ensures WriteEffect(t, false, p).table[p.id].status == Libre
  {
  }

  /** Of two guest writes to the same free id, taken one after the other,
      the first is stored and the second is refused. */
  lemma SecondGuestClaimRefused(t: Table, p: Participante, q: Participante)
    requires p.id !in t && q.id == p.id
    ensures var first := WriteEffect(t, false, p);
            var second := WriteEffect(first.table, false, q);
            && first.outcome == Saved
            && second.outcome == Unavailable
            && second.table[p.id] == SlotOf(p, false)
  {
  }

  /** The upserts of POST /api/import applied in order, each storing
      validado as given. */
  function ImportAll(t: Table, datos: seq<Participante>): (r: Table)
    // An import never deletes a row.
    ensures t.Keys <= r.Keys
    decreases |datos|
  {
    if datos == [] then t
    else
      var last := datos[|datos| - 1];
      Upsert(ImportAll(t, datos[..|datos| - 1]), last, last.validado)
  }

  /** One more record of the import is one more upsert on the table so far. */
  lemma ImportAllSnoc(t: Table, datos: seq<Participante>, i: nat)
    requires i < |datos|
    ensures ImportAll(t, datos[..i + 1]) == Upsert(ImportAll(t, datos[..i]), datos[i], datos[i].validado)
  {
    assert datos[..i + 1][..i] == datos[..i];
  }

  /** The ids with a row after an import: the old ones and every id named. */
  lemma {:induction false} ImportAllKeys(t: Table, datos: seq<Participante>, k: nat)
    ensures k in ImportAll(t, datos) <==> k in t || exists i :: 0 <= i < |datos| && datos[i].id == k
    decreases |datos|
  {
    if datos != [] {
      var init := datos[..|datos| - 1];
      ImportAllKeys(t, init, k);
      if exists i :: 0 <= i < |init| && init[i].id == k {
        var i :| 0 <= i < |init| && init[i].id == k;
        assert datos[i].id == k;
      }
      if exists i :: 0 <= i < |datos| && datos[i].id == k {
        var i :| 0 <= i < |datos| && datos[i].id == k;
        assert i < |init| ==> init[i].id == k;
      }
    }
  }

  /** A row that no record names is left as it was. */
  lemma {:induction false} ImportAllUntouched(t: Table, datos: seq<Participante>, k: nat)
    requires k in t
    requires forall i :: 0 <= i < |datos| ==> datos[i].id != k
    ensures k in ImportAll(t, datos) && ImportAll(t, datos)[k] == t[k]
    decreases |datos|
  {
    if datos != [] {
      ImportAllUntouched(t, datos[..|datos| - 1], k);
    }
  }

  /** The last record with a given id is the one stored: a later
      duplicate overrides an earlier one. */
  lemma {:induction false} ImportAllLastWins(t: Table, datos: seq<Participante>, i: nat)
    requires i < |datos|
    requires forall j :: i < j < |datos| ==> datos[j].id != datos[i].id
    ensures datos[i].id in ImportAll(t, datos)
    ensures ImportAll(t, datos)[datos[i].id] == SlotOf(datos[i], datos[i].validado)
    decreases |datos|
  {
    if i < |datos| - 1 {
      ImportAllLastWins(t, datos[..|datos| - 1], i);
    }
  }

  /** The transaction's working copy after the writes of datos run in
      order; None once a write fails. */
  function Transaction(t: Table, datos: seq<Participante>, fails: Participante -> bool): (r: Option<Table>)
    ensures r.Some? <==> forall i :: 0 <= i < |datos| ==> !fails(datos[i])
    ensures r.Some? ==> r.value == ImportAll(t, datos)
    decreases |datos|
  {
    if datos == [] then Some(t)
    else
      var last := datos[|datos| - 1];
      match Transaction(t, datos[..|datos| - 1], fails)
      case None => None
      case Some(w) => if fails(last) then None else Some(Upsert(w, last, last.validado))
  }

  /** POST /api/import: admin only, an array only, then the writes
      inside a transaction. beginFails and commitFails stand for
      beginTransaction and commit throwing; like a failing write, either
      one ends in the rollback. */
  function ImportEffect(t: Table, isAdmin: bool, body: ImportBody, fails: Participante -> bool,
                        beginFails: bool, commitFails: bool): (r: ImportStep)
    ensures !isAdmin ==> r == ImportStep(Unauthorized, t)
    ensures isAdmin && body.NotArray? ==> r == ImportStep(InvalidFormat, t)
    // All or nothing.
    ensures isAdmin && body.Records? && (beginFails || commitFails) ==> r == ImportStep(RolledBack, t)
    ensures isAdmin && body.Records? && (exists i :: 0 <= i < |body.datos| && fails(body.datos[i])) ==>
              r == ImportStep(RolledBack, t)
    ensures isAdmin && body.Records? && !beginFails && !commitFails &&
            (forall i :: 0 <= i < |body.datos| ==> !fails(body.datos[i])) ==>
              r == ImportStep(Imported(|body.datos|), ImportAll(t, body.datos))
  {
    if !isAdmin then ImportStep(Unauthorized, t)
    else if body.NotArray? then ImportStep(InvalidFormat, t)
    else if beginFails then ImportStep(RolledBack, t)
    else
      match Transaction(t, body.datos, fails)
      case None => ImportStep(RolledBack, t)
      case Some(w) => if commitFails then ImportStep(RolledBack, t) else ImportStep(Imported(|body.datos|), w)
  }
}
