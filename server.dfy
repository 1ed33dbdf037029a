/** The request handlers of server.js over the participantes table,
    each run to completion before the next one starts. The caller's
    session flag isAdmin is a parameter; storage failures are parameters
    too (fault for POST /api/rifa, fails for each record of an import). */
module Server {
  import opened Text
  import opened Ledger
  import opened Views

  datatype ExportOutcome =
    | Csv(text: string)   // the reporte.csv attachment
    | Denied              // 403 "Acceso denegado"

  class Participantes {
    var rows: Table

    constructor ()
      ensures rows == map[]
    {
      rows := map[];
    }

    /** DELETE FROM participantes WHERE id = ? */
    method Delete(id: nat)
      modifies this
      ensures rows.Keys == old(rows).Keys - {id}
      ensures forall k :: k in rows ==> rows[k] == old(rows)[k]
    {
      rows := rows - {id};
    }

    /** INSERT INTO participantes ... ON DUPLICATE KEY UPDATE ..., with
        the given value for validado. */
    method InsertOrUpdate(p: Participante, validado: bool)
      modifies this
      ensures rows == Upsert(old(rows), p, validado)
    {
      rows := rows[p.id := SlotOf(p, validado)];
    }

    /** POST /api/rifa. A guest may claim only a slot with no row; an
        admin writing 'libre' deletes the row; anything else is an upsert
        whose validado is kept only for an admin. fault stands for a
        query that throws, which is answered with 500 and changes nothing. */
    method Write(isAdmin: bool, p: Participante, fault: bool) returns (outcome: WriteOutcome)
      modifies this
      ensures fault ==> outcome == StorageError && rows == old(rows)
      ensures !fault ==> WriteStep(outcome, rows) == WriteEffect(old(rows), isAdmin, p)
    {
      if fault {
        return StorageError;
      }
      var occupied := p.id in rows;
      if !isAdmin && occupied {
        outcome := Unavailable;
      } else if isAdmin && p.status == Libre {
        Delete(p.id);
        outcome := Saved;
      } else {
        InsertOrUpdate(p, isAdmin && p.validado);
        outcome := Saved;
      }
    }

    /** The body of the import's transaction: each record upserted in
        order; on the first write that fails, the table is put back as it
        was before the first write and ok is false. */
    method RunTransaction(datos: seq<Participante>, fails: Participante -> bool) returns (ok: bool)
      modifies this
      ensures ok ==> Transaction(old(rows), datos, fails) == Some(rows)
      ensures !ok ==> Transaction(old(rows), datos, fails) == None && rows == old(rows)
    {
      var before := rows;
      var i := 0;
      while i < |datos|
        invariant 0 <= i <= |datos|
        invariant rows == ImportAll(before, datos[..i])
        invariant forall j :: 0 <= j < i ==> !fails(datos[j])
      {
        if fails(datos[i]) {
          rows := before;
          return false;
        }
        ImportAllSnoc(before, datos, i);
        InsertOrUpdate(datos[i], datos[i].validado);
        i := i + 1;
      }
      assert datos[..i] == datos;
      ok := true;
    }

    /** POST /api/import: admin only, an array only, then every record
        upserted in order inside one transaction, rolled back as soon as
        a write fails, or when beginTransaction (beginFails) or commit
        (commitFails) throws. */
    method Import(isAdmin: bool, body: ImportBody, fails: Participante -> bool,
                  beginFails: bool, commitFails: bool) returns (outcome: ImportOutcome)
      modifies this
      ensures ImportStep(outcome, rows) == ImportEffect(old(rows), isAdmin, body, fails, beginFails, commitFails)
    {
      if !isAdmin {
        return Unauthorized;
      }
      if body.NotArray? {
        return InvalidFormat;
      }
      if beginFails {
        return RolledBack;
      }
      var before := rows;
      var ok := RunTransaction(body.datos, fails);
      if ok && commitFails {
        rows := before;
        ok := false;
      }
      outcome := if ok then Imported(|body.datos|) else RolledBack;
    }

    /** GET /api/rifa: every row, under its padded id. */
    method List() returns (data: map<string, Participante>)
      ensures data == Listing(rows)
    {
      var t := rows;
      data := map[];
      var pending := t.Keys;
      while pending != {}
        invariant pending <= t.Keys
        invariant forall k :: k in data ==> k in ListKeys(t)
        invariant forall id :: id in t && id !in pending ==> ListKey(id) in data && data[ListKey(id)] == RowOf(id, t[id])
        decreases pending
      {
        var id :| id in pending;
        ListingStep(t, data, pending, id);
        data := data[ListKey(id) := RowOf(id, t[id])];
        pending := pending - {id};
      }
      ListingComplete(t, data);
    }

    /** GET /api/export: refused to a guest; for an admin, the CSV
        header and then one line per row by ascending id. */
    method Export(isAdmin: bool) returns (r: ExportOutcome)
      ensures !isAdmin ==> r == Denied
      ensures isAdmin ==> r == Csv(ExportText(rows))
    {
      if !isAdmin {
        return Denied;
      }
      var t := rows;
      var ids := SortedIds(t.Keys);
      var csv := CsvHeader;
      ghost var lines := "";
      for i := 0 to |ids|
        invariant csv == CsvHeader + lines
        invariant lines == CsvLines(t, ids[..i])
      {
        CsvLinesSnoc(t, ids, i);
        var line := CsvLine(ids[i], t[ids[i]]);
        csv := csv + line;
        lines := lines + line;
      }
      assert ids[..|ids|] == ids;
      r := Csv(csv);
    }
  }
}
