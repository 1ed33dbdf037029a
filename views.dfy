/** What the two reading handlers of server.js make of the table:
    GET /api/rifa (an object keyed by padded id) and GET /api/export
    (a CSV report in ascending id order). */
module Views {
  import opened Text
  import opened Ledger

  /** The keys of the listing: each id in t, padded. */
  function ListKeys(t: Table): (keys: set<string>)
    ensures forall id :: id in t ==> ListKey(id) in keys
    ensures forall k :: k in keys ==> |k| >= 2 && IsDigits(k)
  {
    set id | id in t :: ListKey(id)
  }

  /** Each listing key is a digit string naming an id of the table. */
  lemma ListKeysReadBack(t: Table)
    ensures forall k :: k in ListKeys(t) ==> IsDigits(k) && ParseDecimal(k) in t
  {
    forall k | k in ListKeys(t) ensures IsDigits(k) && ParseDecimal(k) in t {
      var id :| id in t && ListKey(id) == k;
      ListKeyRoundTrip(id);
    }
  }

  lemma ListKeysRoundTrip()
    ensures forall id: nat :: ParseDecimal(ListKey(id)) == id
  {
    forall id: nat ensures ParseDecimal(ListKey(id)) == id {
      ListKeyRoundTrip(id);
    }
  }

  /** The object GET /api/rifa answers with: each row under its padded
      key, and no other key. */
  function Listing(t: Table): (m: map<string, Participante>)
    ensures m.Keys == ListKeys(t)
    ensures forall id :: id in t ==> m[ListKey(id)] == RowOf(id, t[id])
  {
    ListKeysReadBack(t);
    ListKeysRoundTrip();
    map k | k in ListKeys(t) :: var id := ParseDecimal(k); RowOf(id, t[id])
  }

  /** A map with the listing's keys and values is the listing. */
  lemma ListingExtensional(t: Table, data: map<string, Participante>)
    requires data.Keys == ListKeys(t)
    requires forall id :: id in t ==> data[ListKey(id)] == RowOf(id, t[id])
    ensures data == Listing(t)
  {
    SameListing(t, data, Listing(t));
  }

  lemma SameListing(t: Table, a: map<string, Participante>, b: map<string, Participante>)
    requires a.Keys == ListKeys(t) && b.Keys == ListKeys(t)
    requires forall id :: id in t ==> a[ListKey(id)] == RowOf(id, t[id])
    requires forall id :: id in t ==> b[ListKey(id)] == RowOf(id, t[id])
    ensures a == b
  {
    forall k | k in a ensures a[k] == b[k] {
      var id :| id in t && ListKey(id) == k;
    }
  }

  /** One step of filling the listing with the row of id: the rows
      already done keep their entries, because keys do not collide. */
  lemma ListingStep(t: Table, data: map<string, Participante>, pending: set<nat>, id: nat)
    requires id in pending && pending <= t.Keys
    requires forall k :: k in data ==> k in ListKeys(t)
    requires forall j :: j in t && j !in pending ==> ListKey(j) in data && data[ListKey(j)] == RowOf(j, t[j])
    ensures var data' := data[ListKey(id) := RowOf(id, t[id])];
            && (forall k :: k in data' ==> k in ListKeys(t))
            && (forall j :: j in t && j !in pending - {id} ==> ListKey(j) in data' && data'[ListKey(j)] == RowOf(j, t[j]))
  {
    var data' := data[ListKey(id) := RowOf(id, t[id])];
    forall k | k in data' ensures k in ListKeys(t) {
      if k == ListKey(id) {
        assert id in t;
      }
    }
    forall j | j in t && j !in pending - {id}
      ensures ListKey(j) in data' && data'[ListKey(j)] == RowOf(j, t[j])
    {
      if j != id {
        ListKeyInjective(j, id);
      }
    }
  }

  /** Once every row has been added, the object is the listing. */
  lemma ListingComplete(t: Table, data: map<string, Participante>)
    requires forall k :: k in data ==> k in ListKeys(t)
    requires forall id :: id in t ==> ListKey(id) in data && data[ListKey(id)] == RowOf(id, t[id])
    ensures data == Listing(t)
  {
    forall k | k in ListKeys(t) ensures k in data {
      var id :| id in t && ListKey(id) == k;
    }
    ListingExtensional(t, data);
  }

  /** A write followed by a read of the listing: an accepted write that
      stores a row is seen under its padded key, field for field, with
      validado as the permission rule leaves it. */
  lemma WriteThenList(t: Table, isAdmin: bool, p: Participante)
    requires isAdmin || p.id !in t
    requires !(isAdmin && p.status == Libre)
    ensures var m := Listing(WriteEffect(t, isAdmin, p).table);
            ListKey(p.id) in m &&
            m[ListKey(p.id)] == Participante(p.id, p.nombre, p.telefono, p.status, p.cobrador, isAdmin && p.validado)
  {
  }

  /** The smallest element of a non-empty set of ids. */
  function Least(s: set<nat>): (m: nat)
    requires s != {}
    ensures m in s && forall k :: k in s ==> m <= k
  {
    HasLeast(s);
    var m :| m in s && forall k :: k in s ==> m <= k;
    m
  }

  lemma HasLeast(s: set<nat>)
    requires s != {}
    ensures exists m :: m in s && forall k :: k in s ==> m <= k
  {
    var m := LeastWitness(s);
  }

  lemma {:induction false} LeastWitness(s: set<nat>) returns (m: nat)
    requires s != {}
    ensures m in s && forall k :: k in s ==> m <= k
    decreases |s|
  {
    var x :| x in s;
    var rest := s - {x};
    if rest == {} {
      m := x;
      forall k | k in s ensures m <= k {
        assert k !in rest;
      }
    } else {
      var w := LeastWitness(rest);
      m := if x < w then x else w;
      forall k | k in s ensures m <= k {
        if k != x {
          assert k in rest;
        }
      }
    }
  }

  predicate Ascending(ids: seq<nat>)
  {
    forall i, j :: 0 <= i < j < |ids| ==> ids[i] < ids[j]
  }

  /** The ids of a table in the order SELECT ... ORDER BY id ASC gives
      them: each id once, smallest first (SortedIdsAscending). */
  function SortedIds(s: set<nat>): (ids: seq<nat>)
    ensures forall j :: 0 <= j < |ids| ==> ids[j] in s
    ensures |ids| == |s|
    decreases |s|
  {
    if s == {} then []
    else
      var m := Least(s);
      [m] + SortedIds(s - {m})
  }

  /** Every id of the table is listed. */
  lemma {:induction false} SortedIdsCovers(s: set<nat>, k: nat)
    requires k in s
    ensures k in SortedIds(s)
    decreases |s|
  {
    var m := Least(s);
    var ids := SortedIds(s);
    assert ids == [m] + SortedIds(s - {m});
    if k == m {
      assert ids[0] == k;
    } else {
      SortedIdsCovers(s - {m}, k);
    }
  }

  lemma {:induction false} SortedIdsAscending(s: set<nat>)
    ensures Ascending(SortedIds(s))
    decreases |s|
  {
    if s != {} {
      var m := Least(s);
      var rest := SortedIds(s - {m});
      SortedIdsAscending(s - {m});
      var ids := SortedIds(s);
      assert ids == [m] + rest;
      forall i, j | 0 <= i < j < |ids| ensures ids[i] < ids[j] {
        assert ids[j] == rest[j - 1];
        if i == 0 {
          assert rest[j - 1] in s - {m};
        } else {
          assert ids[i] == rest[i - 1];
        }
      }
    }
  }

  /** The byte-order mark and the column names of the export. */
  const CsvColumns: string := "\U{FEFF}Numero,Nombre," + "Telefono,Estado," + "Cobrador,Validado"
  const CsvHeader: string := CsvColumns + "\n"

  function Quoted(x: string): string
  {
    "\"" + x + "\""
  }

  function SiNo(validado: bool): string
  {
    if validado then "Si" else "No"
  }

  /** The columns of one export line: the unpadded id, nombre and
      telefono in double quotes, status and cobrador bare, validado as
      Si or No. */
  function CsvFields(id: nat, s: Slot): (fields: seq<string>)
    // One field per column of the header.
    ensures |fields| == 6
  {
    [Decimal(id), Quoted(s.nombre), Quoted(s.telefono), s.status, s.cobrador, SiNo(s.validado)]
  }

  /** fields separated by sep. */
  function Join(fields: seq<string>, sep: char): string
    requires fields != []
  {
    if |fields| == 1 then fields[0]
    else Join(fields[..|fields| - 1], sep) + [sep] + fields[|fields| - 1]
  }

  /** The first field opens the joined text, followed by sep when more
      fields come, and the last field closes it. */
  lemma {:induction false} JoinEnds(fields: seq<string>, sep: char)
    requires fields != []
    ensures var r := Join(fields, sep);
            && |r| >= |fields[0]| && r[..|fields[0]|] == fields[0]
            && (|fields| > 1 ==> |r| > |fields[0]| && r[|fields[0]|] == sep)
            && |r| >= |fields[|fields| - 1]| && r[|r| - |fields[|fields| - 1]|..] == fields[|fields| - 1]
    decreases |fields|
  {
    if |fields| > 1 {
      var init := fields[..|fields| - 1];
      JoinEnds(init, sep);
      var j := Join(init, sep);
      var r := Join(fields, sep);
      assert r == j + [sep] + fields[|fields| - 1];
      assert init[0] == fields[0];
      if |init| == 1 {
        assert r[|fields[0]|] == sep;
      }
      assert r[..|fields[0]|] == j[..|fields[0]|];
    }
  }

  /** One line of the export. */
  function CsvLine(id: nat, s: Slot): (line: string)
    ensures |line| > 0 && line[|line| - 1] == '\n'
  {
    Join(CsvFields(id, s), ',') + "\n"
  }

  /** An export line opens with the plain id and a comma, and closes
      with Si or No and the newline. */
  lemma CsvLineEnds(id: nat, s: Slot)
    ensures var line := CsvLine(id, s);
            && |line| > |Decimal(id)| && line[..|Decimal(id)| + 1] == Decimal(id) + ","
            && |line| >= 3 && line[|line| - 3..] == SiNo(s.validado) + "\n"
  {
    var fields := CsvFields(id, s);
    JoinEnds(fields, ',');
    var j := Join(fields, ',');
    var line := CsvLine(id, s);
    assert line == j + "\n";
    assert line[..|Decimal(id)| + 1] == j[..|Decimal(id)|] + [j[|Decimal(id)|]];
    assert line[|line| - 3..] == j[|j| - 2..] + "\n";
  }

  /** The lines of the rows with the given ids, in the given order. */
  function CsvLines(t: Table, ids: seq<nat>): (text: string)
    requires forall j :: 0 <= j < |ids| ==> ids[j] in t
    // No ids, no text; otherwise the text ends on a complete line.
    ensures text == [] <==> ids == []
    ensures ids != [] ==> text[|text| - 1] == '\n'
  {
    if ids == [] then ""
    else CsvLines(t, ids[..|ids| - 1]) + CsvLine(ids[|ids| - 1], t[ids[|ids| - 1]])
  }

  /** The lines of a prefix one longer: one more line at the end. */
  lemma CsvLinesSnoc(t: Table, ids: seq<nat>, i: nat)
    requires forall j :: 0 <= j < |ids| ==> ids[j] in t
    requires i < |ids|
    ensures CsvLines(t, ids[..i + 1]) == CsvLines(t, ids[..i]) + CsvLine(ids[i], t[ids[i]])
  {
    assert ids[..i + 1][..i] == ids[..i];
  }

  /** The text GET /api/export sends: the header, then a line per row by ascending id. */
  function ExportText(t: Table): (csv: string)
    ensures |csv| >= |CsvHeader| && csv[..|CsvHeader|] == CsvHeader
  {
    CsvHeader + CsvLines(t, SortedIds(t.Keys))
  }

  /** The pieces of s between occurrences of sep, as a CSV reader that
      knows no quoting sees them. */
  function Split(s: string, sep: char): (r: seq<string>)
    ensures r != []
  {
    if s == [] then [""]
    else
      var init := Split(s[..|s| - 1], sep);
      if s[|s| - 1] == sep then init + [""]
      else init[..|init| - 1] + [init[|init| - 1] + [s[|s| - 1]]]
  }

  predicate Lacks(x: string, c: char)
  {
    forall i :: 0 <= i < |x| ==> x[i] != c
  }

  lemma {:induction false} SplitAppend(x: string, sep: char, f: string)
    requires Lacks(f, sep)
    ensures Split(x + [sep] + f, sep) == Split(x, sep) + [f]
    decreases |f|
  {
    if f == [] {
      assert x + [sep] + f == x + [sep];
      assert (x + [sep])[..|x|] == x;
    } else {
      var g, c := f[..|f| - 1], f[|f| - 1];
      assert x + [sep] + f == (x + [sep] + g) + [c];
      SplitAppend(x, sep, g);
      SplitLastChar(x + [sep] + g, sep, c);
      var q := Split(x, sep) + [g];
      assert q[..|q| - 1] == Split(x, sep);
      assert g + [c] == f;
    }
  }

  lemma {:induction false} SplitSingle(f: string, sep: char)
    requires Lacks(f, sep)
    ensures Split(f, sep) == [f]
    decreases |f|
  {
    if f != [] {
      var g := f[..|f| - 1];
      SplitSingle(g, sep);
      assert g + [f[|f| - 1]] == f;
    }
  }

  /** Splitting joined fields gives the fields back when none holds the separator. */
  lemma {:induction false} SplitJoin(fields: seq<string>, sep: char)
    requires fields != []
    requires forall i :: 0 <= i < |fields| ==> Lacks(fields[i], sep)
    ensures Split(Join(fields, sep), sep) == fields
    decreases |fields|
  {
    if |fields| == 1 {
      SplitSingle(fields[0], sep);
    } else {
      var init, last := fields[..|fields| - 1], fields[|fields| - 1];
      assert forall i :: 0 <= i < |init| ==> init[i] == fields[i];
      SplitJoin(init, sep);
      assert Join(fields, sep) == Join(init, sep) + [sep] + last;
      SplitAppend(Join(init, sep), sep, last);
      assert init + [last] == fields;
    }
  }

  /** Reading one export line back: without its final newline and split
      at commas it gives the six columns, as long as no stored text
      holds a comma (nothing is escaped). */
  lemma CsvLineReadBack(id: nat, s: Slot)
    requires Lacks(s.nombre, ',') && Lacks(s.telefono, ',') && Lacks(s.status, ',') && Lacks(s.cobrador, ',')
    ensures var line := CsvLine(id, s);
            && line[|line| - 1] == '\n'
            && Split(line[..|line| - 1], ',') == [Decimal(id), Quoted(s.nombre), Quoted(s.telefono), s.status, s.cobrador, SiNo(s.validado)]
  {
    var fields := CsvFields(id, s);
    var line := CsvLine(id, s);
    assert line[..|line| - 1] == Join(fields, ',');
    assert Lacks(Quoted(s.nombre), ',') && Lacks(Quoted(s.telefono), ',');
    assert Lacks(SiNo(s.validado), ',');
    SplitJoin(fields, ',');
  }

  function Count(s: string, c: char): nat
  {
    if s == [] then 0 else Count(s[..|s| - 1], c) + (if s[|s| - 1] == c then 1 else 0)
  }

  lemma {:induction false} CountConcat(a: string, b: string, c: char)
    ensures Count(a + b, c) == Count(a, c) + Count(b, c)
    decreases |b|
  {
    if b == [] {
      assert a + b == a;
    } else {
      assert (a + b)[..|a + b| - 1] == a + b[..|b| - 1];
      CountConcat(a, b[..|b| - 1], c);
    }
  }

  lemma {:induction false} CountAbsent(s: string, c: char)
    requires Lacks(s, c)
    ensures Count(s, c) == 0
  {
    if s != [] {
      CountAbsent(s[..|s| - 1], c);
    }
  }

  /** A row none of whose text columns holds a newline. */
  predicate SingleLine(s: Slot)
  {
    Lacks(s.nombre, '\n') && Lacks(s.telefono, '\n') && Lacks(s.status, '\n') && Lacks(s.cobrador, '\n')
  }

  lemma {:induction false} JoinLacks(fields: seq<string>, sep: char, c: char)
    requires fields != [] && sep != c
    requires forall i :: 0 <= i < |fields| ==> Lacks(fields[i], c)
    ensures Lacks(Join(fields, sep), c)
    decreases |fields|
  {
    if |fields| > 1 {
      JoinLacks(fields[..|fields| - 1], sep, c);
    }
  }

  lemma CsvLineHasOneNewline(id: nat, s: Slot)
    requires SingleLine(s)
    ensures Count(CsvLine(id, s), '\n') == 1
  {
    var fields := CsvFields(id, s);
    assert Lacks(Quoted(s.nombre), '\n') && Lacks(Quoted(s.telefono), '\n');
    assert Lacks(SiNo(s.validado), '\n');
    JoinLacks(fields, ',', '\n');
    CountAbsent(Join(fields, ','), '\n');
    CountConcat(Join(fields, ','), "\n", '\n');
  }

  lemma {:induction false} CsvLinesNewlines(t: Table, ids: seq<nat>)
    requires forall j :: 0 <= j < |ids| ==> ids[j] in t
    requires forall k :: k in t ==> SingleLine(t[k])
    ensures Count(CsvLines(t, ids), '\n') == |ids|
    decreases |ids|
  {
    if ids != [] {
      var init := ids[..|ids| - 1];
      var last := ids[|ids| - 1];
      CsvLinesNewlines(t, init);
      CsvLineHasOneNewline(last, t[last]);
      CountConcat(CsvLines(t, init), CsvLine(last, t[last]), '\n');
    }
  }

  lemma ColumnsSingleLine()
    ensures Lacks(CsvColumns, '\n')
  {
    assert Lacks("\U{FEFF}Numero,Nombre,", '\n');
    assert Lacks("Telefono,Estado,", '\n');
    assert Lacks("Cobrador,Validado", '\n');
  }

  /** When no stored text holds a newline, the export has exactly one
      line per row besides the header. */
  lemma ExportLineCount(t: Table)
    requires forall k :: k in t ==> SingleLine(t[k])
    ensures Count(ExportText(t), '\n') == |t| + 1
  {
    var ids := SortedIds(t.Keys);
    CsvLinesNewlines(t, ids);
    ColumnsSingleLine();
    CountAbsent(CsvColumns, '\n');
    CountConcat(CsvColumns, "\n", '\n');
    CountConcat(CsvHeader, CsvLines(t, ids), '\n');
    assert |t.Keys| == |t|;
  }

  /** Text without sep added to the end extends the last piece. */
  lemma {:induction false} SplitExtend(x: string, sep: char, f: string)
    requires Lacks(f, sep)
    ensures var p := Split(x, sep);
            Split(x + f, sep) == p[..|p| - 1] + [p[|p| - 1] + f]
    decreases |f|
  {
    if f == [] {
      assert x + f == x;
      var p := Split(x, sep);
      assert p[|p| - 1] + f == p[|p| - 1];
      assert p[..|p| - 1] + [p[|p| - 1]] == p;
    } else {
      var g, c := f[..|f| - 1], f[|f| - 1];
      assert x + f == (x + g) + [c];
      SplitExtend(x, sep, g);
      SplitLastChar(x + g, sep, c);
      var p := Split(x, sep);
      var q := Split(x + g, sep);
      assert q[..|q| - 1] == p[..|p| - 1];
      assert p[|p| - 1] + g + [c] == p[|p| - 1] + f;
    }
  }

  /** A last character other than sep extends the last piece. */
  lemma SplitLastChar(x: string, sep: char, c: char)
    requires c != sep
    ensures var q := Split(x, sep);
            Split(x + [c], sep) == q[..|q| - 1] + [q[|q| - 1] + [c]]
  {
    assert (x + [c])[..|x|] == x;
  }

  /** One more line of text without sep, and its sep: the pieces gain
      that text before the empty piece after the last sep. */
  lemma SplitAddLine(before: string, sep: char, line: string, pieces: seq<string>)
    requires Split(before, sep) == pieces + [""]
    requires Lacks(line, sep)
    ensures Split(before + line + [sep], sep) == pieces + [line] + [""]
  {
    SplitExtend(before, sep, line);
    var w := before + line + [sep];
    assert w[..|w| - 1] == before + line;
    assert (pieces + [""])[..|pieces|] == pieces;
    assert "" + line == line;
    assert Split(before + line, sep) == pieces + [line];
    assert Split(w, sep) == Split(before + line, sep) + [""];
  }

  /** The export lines of the given ids without their newlines. */
  function LineTexts(t: Table, ids: seq<nat>): (lines: seq<string>)
    requires forall j :: 0 <= j < |ids| ==> ids[j] in t
    ensures |lines| == |ids|
  {
    if ids == [] then []
    else
      var last := ids[|ids| - 1];
      LineTexts(t, ids[..|ids| - 1]) + [Join(CsvFields(last, t[last]), ',')]
  }

  lemma {:induction false} LineTextsAt(t: Table, ids: seq<nat>, j: nat)
    requires forall i :: 0 <= i < |ids| ==> ids[i] in t
    requires j < |ids|
    ensures LineTexts(t, ids)[j] == Join(CsvFields(ids[j], t[ids[j]]), ',')
    decreases |ids|
  {
    if j < |ids| - 1 {
      LineTextsAt(t, ids[..|ids| - 1], j);
    }
  }

  lemma LineTextSingle(id: nat, s: Slot)
    requires SingleLine(s)
    ensures Lacks(Join(CsvFields(id, s), ','), '\n')
  {
    assert Lacks(Quoted(s.nombre), '\n') && Lacks(Quoted(s.telefono), '\n');
    assert Lacks(SiNo(s.validado), '\n');
    JoinLacks(CsvFields(id, s), ',', '\n');
  }

  lemma HeaderSplit()
    ensures Split(CsvHeader, '\n') == [CsvColumns] + [""]
  {
    ColumnsSingleLine();
    SplitSingle(CsvColumns, '\n');
    assert CsvHeader == CsvColumns + ['\n'] + "";
    SplitAppend(CsvColumns, '\n', "");
  }

  lemma HeaderAndLinesSnoc(t: Table, ids: seq<nat>)
    requires forall j :: 0 <= j < |ids| ==> ids[j] in t
    requires ids != []
    ensures var init, last := ids[..|ids| - 1], ids[|ids| - 1];
            var j := Join(CsvFields(last, t[last]), ',');
            && CsvHeader + CsvLines(t, ids) == CsvHeader + CsvLines(t, init) + j + ['\n']
            && [CsvColumns] + LineTexts(t, ids) + [""] == [CsvColumns] + LineTexts(t, init) + [j] + [""]
  {
    var init, last := ids[..|ids| - 1], ids[|ids| - 1];
    var j := Join(CsvFields(last, t[last]), ',');
    var before := CsvLines(t, init);
    assert CsvLines(t, ids) == before + CsvLine(last, t[last]);
    assert CsvLine(last, t[last]) == j + "\n";
    assert LineTexts(t, ids) == LineTexts(t, init) + [j];
  }

  /** The header followed by some lines, split at newlines: the column
      names, each line's text, and the empty piece after the last newline. */
  lemma {:induction false} HeaderAndLinesSplit(t: Table, ids: seq<nat>)
    requires forall j :: 0 <= j < |ids| ==> ids[j] in t
    requires forall k :: k in t ==> SingleLine(t[k])
    ensures Split(CsvHeader + CsvLines(t, ids), '\n') == [CsvColumns] + LineTexts(t, ids) + [""]
    decreases |ids|
  {
    if ids == [] {
      HeaderSplit();
      assert CsvHeader + CsvLines(t, ids) == CsvHeader;
    } else {
      var init := ids[..|ids| - 1];
      var last := ids[|ids| - 1];
      HeaderAndLinesSplit(t, init);
      LineTextSingle(last, t[last]);
      HeaderAndLinesSnoc(t, ids);
      SplitAddLine(CsvHeader + CsvLines(t, init), '\n', Join(CsvFields(last, t[last]), ','), [CsvColumns] + LineTexts(t, init));
    }
  }

  /** Reading the whole export back: when no stored text holds a
      newline, its lines are the column names, then the line of each id
      in ascending order, then nothing after the last newline. */
  lemma ExportReadBack(t: Table)
    requires forall k :: k in t ==> SingleLine(t[k])
    ensures var ids := SortedIds(t.Keys);
            var lines := Split(ExportText(t), '\n');
            && |lines| == |ids| + 2
            && lines[0] == CsvColumns
            && lines[|lines| - 1] == ""
            && forall j :: 0 <= j < |ids| ==> lines[j + 1] == Join(CsvFields(ids[j], t[ids[j]]), ',')
  {
    var ids := SortedIds(t.Keys);
    HeaderAndLinesSplit(t, ids);
    forall j | 0 <= j < |ids| ensures Split(ExportText(t), '\n')[j + 1] == Join(CsvFields(ids[j], t[ids[j]]), ',') {
      LineTextsAt(t, ids, j);
    }
  }
}
