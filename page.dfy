/**
 * The page script's state and its scrape-and-annotate pass.
 *
 * The course table is abstract: a header row of header cells and body rows
 * of cells, where only the kinds of cell the script looks for are told
 * apart (the instructor cell with the text of its `a.email` link, the
 * inserted rating cell with what it currently shows, anything else). The
 * module-level `ratingCache` and `columnHeaderAdded` of the script are fields
 * of `Page`, next to the table.
 *
 * A cell handle of the script is a (row, cell) position in the table. Only
 * the script's own insertions change the table here, and each inserts after
 * the instructor cell of a row no handle yet points past, so a handle stays
 * valid for as long as the script holds it.
 */
module Page {
  import opened Wrappers
  import opened Names
  import opened Messages
  import opened Badges

  /** What an inserted rating cell shows: the loading indicator, a rendered
      badge, or nothing (the indicator removed after a transport error). */
  datatype Content = Loading | Shown(badge: Badge) | Blank

  /** A body cell: the instructor cell (`td[data-property="instructor"]`) with
      the text of its `a.email` link if it has one, the rating cell
      (`td[data-property="rmpRating"]`), or any other cell. */
  datatype Cell = Instructor(link: Option<string>) | RatingCell(content: Content) | OtherCell

  /** A header cell: the instructor header, the inserted rating header, or any
      other header. */
  datatype HeaderCell = InstructorHeader | RatingHeader | OtherHeader

  /** The `#table1` table: its header row when there is one, and its body
      rows. */
  datatype Table = Table(header: Option<seq<HeaderCell>>, rows: seq<seq<Cell>>)

  /** `{ row, cell, text }`: a row index, the index of its instructor cell and
      the trimmed link text. */
  datatype CellRecord = CellRecord(row: nat, cell: nat, text: string)

  /** A lookup sent for the rating cell at (`row`, `cell`), awaiting its
      reply. */
  datatype Pending = Pending(row: nat, cell: nat, name: string)

  /** What `processProfessorCell` did with one record. */
  datatype Outcome = Skipped | Rendered | Sent(pending: Pending)

  /** What the `sendMessage` callback receives: `chrome.runtime.lastError`
      set, or a reply. */
  datatype Reply = LastError | Delivered(response: Response)

  /** The message sent for a pending lookup. */
  function MessageOf(p: Pending): (m: Request)
    ensures m.action == GetProfessorRating && m.professorName == p.name
  {
    Request(GetProfessorRating, p.name)
  }

  // ---------------------------------------------------------------------
  // Finding the instructor cells

  /** `row.querySelector('td[data-property="instructor"]')`. */
  function FirstInstructor(row: seq<Cell>): (k: Option<nat>)
    ensures k.Some? ==> k.value < |row| && row[k.value].Instructor?
    ensures k.Some? ==> forall i :: 0 <= i < k.value ==> !row[i].Instructor?
    ensures k.None? ==> forall i :: 0 <= i < |row| ==> !row[i].Instructor?
  {
    if row == [] then None
    else if row[0].Instructor? then Some(0)
    else match FirstInstructor(row[1..])
      case None => None
      case Some(k) => Some(k + 1)
  }

  /** The record `findProfessorCells` pushes for row `r`, if any: the row has
      an instructor cell, that cell has a link, and the trimmed link text is
      an instructor name. */
  function Candidate(row: seq<Cell>, r: nat): (c: Option<CellRecord>)
    ensures c.Some? ==> c.value.row == r && c.value.cell < |row|
    ensures c.Some? ==>
      && FirstInstructor(row) == Some(c.value.cell)
      && row[c.value.cell].link.Some?
      && c.value.text == Trim(row[c.value.cell].link.value)
  {
    match FirstInstructor(row)
    case None => None
    case Some(k) =>
      match row[k].link
      case None => None
      case Some(raw) =>
        if IsInstructorName(Trim(raw)) then Some(CellRecord(r, k, Trim(raw))) else None
  }

  /** A row yields a record exactly when its first instructor cell has a
      link whose trimmed text passes the instructor filter. */
  lemma CandidateFilter(row: seq<Cell>, r: nat)
    ensures Candidate(row, r).Some? <==>
      && FirstInstructor(row).Some?
      && row[FirstInstructor(row).value].link.Some?
      && IsInstructorName(Trim(row[FirstInstructor(row).value].link.value))
  {
  }

  /** The record of row `r`, as a list of at most one. */
  function RecordOf(row: seq<Cell>, r: nat): seq<CellRecord> {
    match Candidate(row, r)
    case Some(c) => [c]
    case None => []
  }

  /** The records of all rows, in table order. */
  function Scan(rows: seq<seq<Cell>>): (cells: seq<CellRecord>)
    ensures |cells| <= |rows|
  {
    if rows == [] then []
    else Scan(rows[..|rows| - 1]) + RecordOf(rows[|rows| - 1], |rows| - 1)
  }

  /** Scanning one more row appends that row's record. */
  lemma ScanSnoc(rows: seq<seq<Cell>>, i: nat)
    requires i < |rows|
    ensures Scan(rows[..i + 1]) == Scan(rows[..i]) + RecordOf(rows[i], i)
  {
    assert rows[..i + 1][..i] == rows[..i];
  }

  /** `cells` lists exactly the candidates of `rows`, each once, in
      increasing row order. */
  ghost predicate Lists(rows: seq<seq<Cell>>, cells: seq<CellRecord>) {
    && (forall k :: 0 <= k < |cells| ==>
          cells[k].row < |rows| && Candidate(rows[cells[k].row], cells[k].row) == Some(cells[k]))
    && (forall k, j :: 0 <= k < j < |cells| ==> cells[k].row < cells[j].row)
    && (forall r :: 0 <= r < |rows| && Candidate(rows[r], r).Some? ==> Candidate(rows[r], r).value in cells)
  }

  /** `Scan` keeps exactly the candidate rows, in table order. */
  lemma ScanCorrect(rows: seq<seq<Cell>>)
    ensures Lists(rows, Scan(rows))
  {
    ScanSound(rows);
    ScanOrdered(rows);
    ScanComplete(rows);
  }

  lemma {:induction false} ScanSound(rows: seq<seq<Cell>>)
    ensures forall k :: 0 <= k < |Scan(rows)| ==>
      Scan(rows)[k].row < |rows| && Candidate(rows[Scan(rows)[k].row], Scan(rows)[k].row) == Some(Scan(rows)[k])
  {
    if rows != [] {
      var n := |rows| - 1;
      var front := rows[..n];
      ScanSound(front);
      var head := Scan(front);
      var tail := RecordOf(rows[n], n);
      var cells := Scan(rows);
      assert cells == head + tail;
      forall k | 0 <= k < |cells|
        ensures cells[k].row < |rows| && Candidate(rows[cells[k].row], cells[k].row) == Some(cells[k])
      {
        if k < |head| {
          assert cells[k] == head[k];
          assert front[head[k].row] == rows[head[k].row];
        }
      }
    }
  }

  lemma {:induction false} ScanOrdered(rows: seq<seq<Cell>>)
    ensures forall k :: 0 <= k < |Scan(rows)| ==> Scan(rows)[k].row < |rows|
    ensures forall k, j :: 0 <= k < j < |Scan(rows)| ==> Scan(rows)[k].row < Scan(rows)[j].row
  {
    if rows != [] {
      var n := |rows| - 1;
      var front := rows[..n];
      ScanOrdered(front);
      var head := Scan(front);
      var tail := RecordOf(rows[n], n);
      var cells := Scan(rows);
      assert cells == head + tail;
      assert tail != [] ==> tail[0].row == n;
      forall k | 0 <= k < |cells| ensures cells[k].row < |rows| {
        if k < |head| {
          assert cells[k] == head[k];
        }
      }
      forall k, j | 0 <= k < j < |cells| ensures cells[k].row < cells[j].row {
        assert cells[k] == head[k];
        if j < |head| {
          assert cells[j] == head[j];
        }
      }
    }
  }

  lemma ScanComplete(rows: seq<seq<Cell>>)
    ensures forall r :: 0 <= r < |rows| && Candidate(rows[r], r).Some? ==>
      Candidate(rows[r], r).value in Scan(rows)
  {
    forall r | 0 <= r < |rows| && Candidate(rows[r], r).Some?
      ensures Candidate(rows[r], r).value in Scan(rows)
    {
      ScanHas(rows, r, Candidate(rows[r], r).value);
    }
  }

  lemma {:induction false} ScanHas(rows: seq<seq<Cell>>, r: nat, c: CellRecord)
    requires r < |rows| && Candidate(rows[r], r) == Some(c)
    ensures c in Scan(rows)
    decreases |rows|
  {
    var front := rows[..|rows| - 1];
    if r < |front| {
      assert front[r] == rows[r];
      ScanHas(front, r, c);
      ScanGrows(rows, c);
    } else {
      ScanLast(rows, c);
    }
  }

  lemma ScanGrows(rows: seq<seq<Cell>>, c: CellRecord)
    requires rows != [] && c in Scan(rows[..|rows| - 1])
    ensures c in Scan(rows)
  {
  }

  lemma ScanLast(rows: seq<seq<Cell>>, c: CellRecord)
    requires rows != [] && Candidate(rows[|rows| - 1], |rows| - 1) == Some(c)
    ensures c in Scan(rows)
  {
  }

  // ---------------------------------------------------------------------
  // The rating header

  /** Index of the first instructor header. */
  function InstructorHeaderAt(h: seq<HeaderCell>): (k: nat)
    requires InstructorHeader in h
    ensures k < |h| && h[k] == InstructorHeader && InstructorHeader !in h[..k]
  {
    if h[0] == InstructorHeader then 0 else 1 + InstructorHeaderAt(h[1..])
  }

  /** The header row with the rating header inserted right after the first
      instructor header; none without an instructor header. */
  function WithRatingHeader(h: seq<HeaderCell>): (r: Option<seq<HeaderCell>>)
    ensures r.None? <==> InstructorHeader !in h
    ensures r.Some? ==>
      var k := InstructorHeaderAt(h);
      && |r.value| == |h| + 1
      && r.value[k] == InstructorHeader && r.value[k + 1] == RatingHeader
      && r.value[..k + 1] == h[..k + 1] && r.value[k + 2..] == h[k + 1..]
      && multiset(r.value) == multiset(h) + multiset{RatingHeader}
  {
    if InstructorHeader !in h then None
    else
      var k := InstructorHeaderAt(h);
      assert h == h[..k + 1] + h[k + 1..];
      Some(h[..k + 1] + [RatingHeader] + h[k + 1..])
  }

  /** `addRatingColumnHeader` on (flag, table): once the flag is set nothing
      changes; the flag is set exactly when the header is inserted; a missing
      table, header row or instructor header changes nothing. */
  function HeaderStep(added: bool, t: Option<Table>): (r: (bool, Option<Table>))
    ensures added ==> r == (true, t)
    ensures !r.0 ==> r.1 == t
    ensures !added ==>
      (r.0 <==> t.Some? && t.value.header.Some? && InstructorHeader in t.value.header.value)
    ensures !added && r.0 ==>
      r.1 == Some(t.value.(header := WithRatingHeader(t.value.header.value)))
  {
    if added then (true, t)
    else match t
      case None => (false, t)
      case Some(tb) =>
        match tb.header
        case None => (false, t)
        case Some(h) =>
          match WithRatingHeader(h)
          case None => (false, t)
          case Some(h') => (true, Some(tb.(header := Some(h'))))
  }

  /** Repeating the header step changes nothing: the rating header is never
      inserted twice. */
  lemma HeaderStepIdempotent(added: bool, t: Option<Table>)
    ensures HeaderStep(HeaderStep(added, t).0, HeaderStep(added, t).1) == HeaderStep(added, t)
  {
  }

  // ---------------------------------------------------------------------
  // Annotating one row

  predicate HasRatingCell(row: seq<Cell>) {
    exists i :: 0 <= i < |row| && row[i].RatingCell?
  }

  /** Own-key lookup in the rating cache: the badge of the cached reply, or
      none when the name has no entry. */
  function CachedBadge(cache: map<string, Response>, name: string): (b: Option<Badge>)
    ensures b.Some? <==> name in cache
    ensures b.Some? ==> b.value == CreateRatingBadge(name, cache[name])
  {
    if name in cache then Some(CreateRatingBadge(name, cache[name])) else None
  }

  /** What a freshly inserted rating cell shows. */
  function InitialContent(cache: map<string, Response>, name: string): Content {
    match CachedBadge(cache, name)
    case Some(b) => Shown(b)
    case None => Loading
  }

  /** `processProfessorCell` on one row: no cell for a normalised name shorter
      than three characters, nothing for a row that already has a rating
      cell, and otherwise exactly one rating cell inserted right after the
      instructor cell, with every other cell kept in order. */
  function ProcessRow(row: seq<Cell>, rec: CellRecord, cache: map<string, Response>): (r: seq<Cell>)
    requires rec.cell < |row|
    ensures |ExtractProfessorName(rec.text)| < 3 || HasRatingCell(row) ==> r == row
    ensures !(|ExtractProfessorName(rec.text)| < 3 || HasRatingCell(row)) ==>
      && |r| == |row| + 1
      && r[rec.cell + 1] == RatingCell(InitialContent(cache, ExtractProfessorName(rec.text)))
      && (forall i :: 0 <= i < |r| ==> (r[i].RatingCell? <==> i == rec.cell + 1))
      && (forall i :: 0 <= i <= rec.cell ==> r[i] == row[i])
      && (forall i :: rec.cell + 1 < i < |r| ==> r[i] == row[i - 1])
  {
    var name := ExtractProfessorName(rec.text);
    if |name| < 3 || HasRatingCell(row) then row
    else row[..rec.cell + 1] + [RatingCell(InitialContent(cache, name))] + row[rec.cell + 1..]
  }

  /** What `processProfessorCell` reports for one row. A lookup is sent
      only when a cell was inserted and the cache has no entry. */
  function RowOutcome(row: seq<Cell>, rec: CellRecord, cache: map<string, Response>): (o: Outcome)
    ensures o.Sent? ==> o.pending == Pending(rec.row, rec.cell + 1, ExtractProfessorName(rec.text))
    ensures o.Sent? ==> ExtractProfessorName(rec.text) !in cache
    ensures o.Rendered? ==> ExtractProfessorName(rec.text) in cache
    ensures o.Skipped? <==> |ExtractProfessorName(rec.text)| < 3 || HasRatingCell(row)
  {
    var name := ExtractProfessorName(rec.text);
    if |name| < 3 || HasRatingCell(row) then Skipped
    else if name in cache then Rendered
    else Sent(Pending(rec.row, rec.cell + 1, name))
  }

  /** One row of a pass: its record, if it has one, processed. */
  function PassRow(row: seq<Cell>, r: nat, cache: map<string, Response>): (annotated: seq<Cell>)
    ensures Candidate(row, r).None? ==> annotated == row
    ensures |row| <= |annotated| <= |row| + 1
  {
    match Candidate(row, r)
    case None => row
    case Some(rec) => ProcessRow(row, rec, cache)
  }

  /** The body rows after one pass. */
  function PassRows(rows: seq<seq<Cell>>, cache: map<string, Response>): (r: seq<seq<Cell>>)
    ensures |r| == |rows|
    ensures forall i :: 0 <= i < |rows| ==> r[i] == PassRow(rows[i], i, cache)
  {
    seq(|rows|, i requires 0 <= i < |rows| => PassRow(rows[i], i, cache))
  }

  /** The first instructor cell is the instructor cell with none before it. */
  lemma {:induction false} FirstInstructorIs(row: seq<Cell>, k: nat)
    requires k < |row| && row[k].Instructor?
    requires forall i :: 0 <= i < k ==> !row[i].Instructor?
    ensures FirstInstructor(row) == Some(k)
    decreases k
  {
    if k > 0 {
      assert row[1..][k - 1] == row[k];
      assert forall i :: 0 <= i < k - 1 ==> row[1..][i] == row[i + 1];
      FirstInstructorIs(row[1..], k - 1);
    }
  }

  lemma FirstInstructorAfterInsert(row: seq<Cell>, k: nat, c: Cell)
    requires FirstInstructor(row) == Some(k) && !c.Instructor?
    ensures FirstInstructor(row[..k + 1] + [c] + row[k + 1..]) == Some(k)
    ensures (row[..k + 1] + [c] + row[k + 1..])[k] == row[k]
  {
    var r := row[..k + 1] + [c] + row[k + 1..];
    assert forall i :: 0 <= i <= k ==> r[i] == row[i];
    FirstInstructorIs(r, k);
  }

  /** The record of a row depends only on its first instructor cell. */
  lemma CandidateOfSameInstructor(row1: seq<Cell>, row2: seq<Cell>, r: nat, k: nat)
    requires FirstInstructor(row1) == FirstInstructor(row2) == Some(k)
    requires row1[k] == row2[k]
    ensures Candidate(row1, r) == Candidate(row2, r)
  {
  }

  /** Annotating a row keeps its record: the instructor cell and its text
      are where they were. */
  lemma CandidateKept(row: seq<Cell>, r: nat, cache: map<string, Response>)
    ensures Candidate(PassRow(row, r, cache), r) == Candidate(row, r)
  {
    var c := Candidate(row, r);
    if c.Some? {
      var rec := c.value;
      var name := ExtractProfessorName(rec.text);
      if !(|name| < 3 || HasRatingCell(row)) {
        var cell := RatingCell(InitialContent(cache, name));
        FirstInstructorAfterInsert(row, rec.cell, cell);
        assert PassRow(row, r, cache) == row[..rec.cell + 1] + [cell] + row[rec.cell + 1..];
        CandidateOfSameInstructor(PassRow(row, r, cache), row, r, rec.cell);
      }
    }
  }

  /** A row that already has a rating cell is left as it is by a pass,
      whatever the cache holds and whatever the cell shows. */
  lemma SettledRowUnchanged(row: seq<Cell>, r: nat, cache: map<string, Response>)
    requires HasRatingCell(row)
    ensures PassRow(row, r, cache) == row
  {
  }

  /** A second pass over the rows of a first one, with any cache, changes
      nothing: each row gets at most one rating cell. */
  lemma PassRowsIdempotent(rows: seq<seq<Cell>>, c1: map<string, Response>, c2: map<string, Response>)
    ensures PassRows(PassRows(rows, c1), c2) == PassRows(rows, c1)
  {
    var once := PassRows(rows, c1);
    forall i | 0 <= i < |rows|
      ensures PassRow(once[i], i, c2) == once[i]
    {
      CandidateKept(rows[i], i, c1);
      match Candidate(rows[i], i)
      case None =>
      case Some(rec) =>
        var name := ExtractProfessorName(rec.text);
        if !(|name| < 3 || HasRatingCell(rows[i])) {
          assert once[i][rec.cell + 1].RatingCell?;
        }
    }
  }

  // ---------------------------------------------------------------------
  // Finding: cache lookup on a plain object

  /** The property names every plain JavaScript object inherits from
      `Object.prototype`. */
  const InheritedNames: set<string> := {
    "constructor", "hasOwnProperty", "isPrototypeOf", "propertyIsEnumerable",
    "toLocaleString", "toString", "valueOf", "__proto__",
    "__defineGetter__", "__defineSetter__", "__lookupGetter__", "__lookupSetter__"
  }

  /** The cache test as written, `if (ratingCache[professorName])` on a plain
      object: an inherited name reads a truthy function, whose `success` is
      undefined, so the row is rendered as not found and no lookup is
      sent. */
  function CachedBadgeAsWritten(cache: map<string, Response>, name: string): (b: Option<Badge>)
    ensures name in cache ==> b == Some(CreateRatingBadge(name, cache[name]))
    ensures name !in cache && name in InheritedNames ==> b == Some(NotOnRmp(NotFoundTitle))
    ensures name !in cache && name !in InheritedNames ==> b.None?
  {
    if name in cache then Some(CreateRatingBadge(name, cache[name]))
    else if name in InheritedNames then Some(NotOnRmp(NotFoundTitle))
    else None
  }

  /** An instructor called "constructor" passes the filter, and with an
      empty cache the lookup as written finds a badge for the name and no
      lookup is sent, while the own-key lookup finds nothing. */
  lemma InheritedNameCounterexample()
    ensures IsInstructorName("constructor") && ExtractProfessorName("constructor") == "constructor"
    ensures CachedBadgeAsWritten(map[], "constructor") == Some(NotOnRmp(NotFoundTitle))
    ensures CachedBadge(map[], "constructor") == None
  {
    var n := "constructor";
    assert n in InheritedNames;
    forall i | 0 <= i < |n| ensures n[i] != 'f' && n[i] != 'F' && 'a' <= n[i] <= 'z' {
    }
    WithoutFPasses(n);
    LettersAreClean(n);
    CleanIsFixed(n);
  }

  // ---------------------------------------------------------------------
  // The page

  class Page {
    var table: Option<Table>
    var columnHeaderAdded: bool
    var ratingCache: map<string, Response>

    /** The script's state when it is loaded on a page showing `t`. */
    constructor (t: Option<Table>)
      ensures table == t && !columnHeaderAdded && ratingCache == map[]
    {
      table := t;
      columnHeaderAdded := false;
      ratingCache := map[];
    }

    /** The rating cell a pending lookup will fill still shows the loading
        indicator. */
    ghost predicate Awaiting(p: Pending)
      reads this
    {
      table.Some? && Loads(table.value.rows, p)
    }

    /** `findProfessorCells`: no records without a table, otherwise the
        records of the body rows in table order. */
    method FindProfessorCells() returns (cells: seq<CellRecord>)
      ensures table.None? ==> cells == []
      ensures table.Some? ==> cells == Scan(table.value.rows)
    {
      cells := [];
      if table.None? {
        return;
      }
      var rows := table.value.rows;
      var i := 0;
      while i < |rows|
        invariant 0 <= i <= |rows|
        invariant cells == Scan(rows[..i])
      {
        ScanSnoc(rows, i);
        var row := rows[i];
        var k := FirstInstructor(row);
        if k.Some? {
          var link := row[k.value].link;
          if link.Some? {
            var text := Trim(link.value);
            if IsInstructorName(text) {
              cells := cells + [CellRecord(i, k.value, text)];
            }
          }
        }
        i := i + 1;
      }
      assert rows[..i] == rows;
    }

    /** `addRatingColumnHeader`. */
    method AddRatingColumnHeader()
      modifies this
      ensures (columnHeaderAdded, table) == HeaderStep(old(columnHeaderAdded), old(table))
      ensures ratingCache == old(ratingCache)
    {
      if columnHeaderAdded {
        return;
      }
      if table.None? {
        return;
      }
      var header := table.value.header;
      if header.None? {
        return;
      }
      if InstructorHeader !in header.value {
        return;
      }
      var k := InstructorHeaderAt(header.value);
      var h := header.value[..k + 1] + [RatingHeader] + header.value[k + 1..];
      table := Some(table.value.(header := Some(h)));
      columnHeaderAdded := true;
    }

    /** `processProfessorCell` for the record `rec`: the row changes as
        `ProcessRow` says and no other row changes; a lookup is sent only
        for a name the cache does not hold, and its cell then shows the
        loading indicator. */
    method ProcessProfessorCell(rec: CellRecord) returns (outcome: Outcome)
      requires table.Some? && rec.row < |table.value.rows| && rec.cell < |table.value.rows[rec.row]|
      modifies this
      ensures table == Some(old(table).value.(rows :=
        old(table).value.rows[rec.row := ProcessRow(old(table).value.rows[rec.row], rec, ratingCache)]))
      ensures ratingCache == old(ratingCache) && columnHeaderAdded == old(columnHeaderAdded)
      ensures outcome == RowOutcome(old(table).value.rows[rec.row], rec, ratingCache)
      ensures outcome.Sent? ==> Awaiting(outcome.pending)
    {
      assert table.value.rows[rec.row := table.value.rows[rec.row]] == table.value.rows;
      var professorName := ExtractProfessorName(rec.text);
      if |professorName| < 3 {
        return Skipped;
      }
      var rows := table.value.rows;
      var row := rows[rec.row];
      if HasRatingCell(row) {
        return Skipped;
      }
      var content := Loading;
      if professorName in ratingCache {
        content := Shown(CreateRatingBadge(professorName, ratingCache[professorName]));
        outcome := Rendered;
      } else {
        outcome := Sent(Pending(rec.row, rec.cell + 1, professorName));
      }
      var row' := row[..rec.cell + 1] + [RatingCell(content)] + row[rec.cell + 1..];
      table := Some(table.value.(rows := rows[rec.row := row']));
    }

    /** The `sendMessage` callback for a pending lookup. On a transport error
        the loading indicator is removed and the cache is left alone; on a
        reply, successful or not, the reply is cached under the name and its
        badge is shown. Nothing else changes. */
    method OnReply(p: Pending, reply: Reply)
      requires table.Some? && p.row < |table.value.rows| && p.cell < |table.value.rows[p.row]|
      requires table.value.rows[p.row][p.cell].RatingCell?
      modifies this
      ensures columnHeaderAdded == old(columnHeaderAdded)
      ensures reply.LastError? ==> ratingCache == old(ratingCache)
      ensures reply.Delivered? ==> ratingCache == old(ratingCache)[p.name := reply.response]
      ensures table == Some(old(table).value.(rows := old(table).value.rows[p.row :=
        old(table).value.rows[p.row][p.cell := RatingCell(
          if reply.LastError? then Blank else Shown(CreateRatingBadge(p.name, reply.response)))]]))
    {
      var rows := table.value.rows;
      var content := Blank;
      if reply.Delivered? {
        ratingCache := ratingCache[p.name := reply.response];
        content := Shown(CreateRatingBadge(p.name, reply.response));
      }
      table := Some(table.value.(rows := rows[p.row := rows[p.row][p.cell := RatingCell(content)]]));
    }

    /** `init`: the header step, then every record processed in table order.
        Returns the lookups sent, each awaiting its reply in a loading cell.
        A second call changes nothing (see `InitIdempotent`). */
    method Init() returns (sent: seq<Pending>)
      modifies this
      ensures ratingCache == old(ratingCache)
      ensures (columnHeaderAdded, table) == InitEffect(old(columnHeaderAdded), old(table), ratingCache)
      ensures sent == match HeaderStep(old(columnHeaderAdded), old(table)).1
        case None => []
        case Some(t) => SentOf(t.rows, Scan(t.rows), ratingCache)
      ensures forall p :: p in sent ==> Awaiting(p) && p.name !in ratingCache
    {
      AddRatingColumnHeader();
      var cells := FindProfessorCells();
      if table.None? {
        return [];
      }
      ProcessRecordsIsPass(table.value.rows, ratingCache);
      sent := ProcessCells(cells);
    }

    /** The loop of `init` over the records found: each processed in turn,
        as `ProcessRecords` says. */
    method ProcessCells(cells: seq<CellRecord>) returns (sent: seq<Pending>)
      requires table.Some? && cells == Scan(table.value.rows)
      modifies this
      ensures columnHeaderAdded == old(columnHeaderAdded) && ratingCache == old(ratingCache)
      ensures table == Some(old(table).value.(rows := ProcessRecords(old(table).value.rows, cells, ratingCache)))
      ensures sent == SentOf(old(table).value.rows, cells, ratingCache)
      ensures forall p :: p in sent ==> Awaiting(p) && p.name !in ratingCache
    {
      ghost var t1 := table.value;
      ghost var rows0 := t1.rows;
      sent := [];
      for i := 0 to |cells|
        invariant ratingCache == old(ratingCache) && columnHeaderAdded == old(columnHeaderAdded)
        invariant table == Some(t1.(rows := ProcessRecords(rows0, cells[..i], ratingCache)))
        invariant Pendings(table.value.rows, sent, Bound(cells, i, |rows0|), ratingCache)
        invariant sent == SentOf(rows0, cells[..i], ratingCache)
      {
        var rec := cells[i];
        ghost var before := table.value.rows;
        RecordUntouched(rows0, cells, i, ratingCache);
        SentOfStep(rows0, cells, i, ratingCache);
        ProcessRecordsSnoc(rows0, cells, i, ratingCache);
        var outcome := ProcessProfessorCell(rec);
        PendingsKept(before, sent, rec.row, table.value.rows[rec.row], Bound(cells, i + 1, |rows0|), ratingCache);
        if outcome.Sent? {
          PendingsAdd(table.value.rows, sent, Bound(cells, i + 1, |rows0|), ratingCache, outcome.pending);
          sent := sent + [outcome.pending];
        }
      }
      assert cells[..|cells|] == cells;
    }
  }

  /** What `init` does to the flag and the table: the header step, then one
      pass over the body rows with the cache as it is. */
  function InitEffect(added: bool, t: Option<Table>, cache: map<string, Response>): (r: (bool, Option<Table>))
    ensures r.0 == HeaderStep(added, t).0
    ensures r.1.Some? <==> t.Some?
    ensures r.1.Some? ==> |r.1.value.rows| == |t.value.rows| && r.1.value.header == HeaderStep(added, t).1.value.header
  {
    var h := HeaderStep(added, t);
    match h.1
    case None => (h.0, None)
    case Some(tb) => (h.0, Some(tb.(rows := PassRows(tb.rows, cache))))
  }

  /** Running `init` again, with any cache, changes neither the flag nor the
      table: no second rating header and no second rating cell in a row. */
  lemma InitIdempotent(added: bool, t: Option<Table>, c1: map<string, Response>, c2: map<string, Response>)
    ensures var once := InitEffect(added, t, c1);
      InitEffect(once.0, once.1, c2) == once
  {
    if t.Some? {
      PassRowsIdempotent(HeaderStep(added, t).1.value.rows, c1, c2);
    }
  }

  /** The body rows after the records `recs` are processed in order; a
      record that points outside the rows is passed over. */
  function ProcessRecords(rows: seq<seq<Cell>>, recs: seq<CellRecord>, cache: map<string, Response>): (r: seq<seq<Cell>>)
    ensures |r| == |rows|
  {
    if recs == [] then rows
    else
      var prev := ProcessRecords(rows, recs[..|recs| - 1], cache);
      var rec := recs[|recs| - 1];
      if rec.row < |prev| && rec.cell < |prev[rec.row]| then prev[rec.row := ProcessRow(prev[rec.row], rec, cache)]
      else prev
  }

  /** The lookup an outcome stands for, as a list of at most one. */
  function OutcomeSent(o: Outcome): (r: seq<Pending>)
    ensures |r| <= 1 && (r != [] <==> o.Sent?)
    ensures o.Sent? ==> r == [o.pending]
  {
    if o.Sent? then [o.pending] else []
  }

  /** The lookups sent when the records `recs` of `rows` are processed in
      order, each on its row as found; a record outside the rows sends
      nothing. */
  function SentOf(rows: seq<seq<Cell>>, recs: seq<CellRecord>, cache: map<string, Response>): (r: seq<Pending>)
    ensures |r| <= |recs|
  {
    if recs == [] then []
    else
      var rec := recs[|recs| - 1];
      SentOf(rows, recs[..|recs| - 1], cache)
        + (if rec.row < |rows| then OutcomeSent(RowOutcome(rows[rec.row], rec, cache)) else [])
  }

  lemma SentOfStep(rows: seq<seq<Cell>>, recs: seq<CellRecord>, i: nat, cache: map<string, Response>)
    requires i < |recs| && recs[i].row < |rows|
    ensures SentOf(rows, recs[..i + 1], cache)
      == SentOf(rows, recs[..i], cache) + OutcomeSent(RowOutcome(rows[recs[i].row], recs[i], cache))
  {
    assert recs[..i + 1][..i] == recs[..i];
  }

  /** Every record whose outcome is a lookup has its lookup in the list. */
  lemma {:induction false} SentOfHas(rows: seq<seq<Cell>>, recs: seq<CellRecord>, cache: map<string, Response>, k: nat)
    requires k < |recs| && recs[k].row < |rows|
    requires RowOutcome(rows[recs[k].row], recs[k], cache).Sent?
    ensures RowOutcome(rows[recs[k].row], recs[k], cache).pending in SentOf(rows, recs, cache)
    decreases |recs|
  {
    var front := recs[..|recs| - 1];
    var tail := SentOfLast(rows, recs, cache);
    if k < |front| {
      assert front[k] == recs[k];
      SentOfHas(rows, front, cache, k);
    }
  }

  /** The list of a non-empty record sequence: that of all records but the
      last, followed by what the last one sends. */
  lemma SentOfLast(rows: seq<seq<Cell>>, recs: seq<CellRecord>, cache: map<string, Response>) returns (tail: seq<Pending>)
    requires recs != []
    ensures SentOf(rows, recs, cache) == SentOf(rows, recs[..|recs| - 1], cache) + tail
    ensures var last := recs[|recs| - 1];
      last.row < |rows| && RowOutcome(rows[last.row], last, cache).Sent? ==>
        tail == [RowOutcome(rows[last.row], last, cache).pending]
  {
    var last := recs[|recs| - 1];
    tail := if last.row < |rows| then OutcomeSent(RowOutcome(rows[last.row], last, cache)) else [];
  }

  /** Records that all send nothing send nothing together. */
  lemma {:induction false} SentOfNone(rows: seq<seq<Cell>>, recs: seq<CellRecord>, cache: map<string, Response>)
    requires forall k :: 0 <= k < |recs| && recs[k].row < |rows| ==> !RowOutcome(rows[recs[k].row], recs[k], cache).Sent?
    ensures SentOf(rows, recs, cache) == []
    decreases |recs|
  {
    if recs != [] {
      var front := recs[..|recs| - 1];
      forall k | 0 <= k < |front| && front[k].row < |rows|
        ensures !RowOutcome(rows[front[k].row], front[k], cache).Sent?
      {
        assert front[k] == recs[k];
      }
      SentOfNone(rows, front, cache);
    }
  }

  /** A pass sends a lookup for every row it annotates whose name the cache
      does not hold, addressed to the new rating cell. */
  lemma PassSendsUncached(rows: seq<seq<Cell>>, cache: map<string, Response>, r: nat, rec: CellRecord)
    requires r < |rows| && Candidate(rows[r], r) == Some(rec)
    requires |ExtractProfessorName(rec.text)| >= 3 && !HasRatingCell(rows[r])
    requires ExtractProfessorName(rec.text) !in cache
    ensures Pending(r, rec.cell + 1, ExtractProfessorName(rec.text)) in SentOf(rows, Scan(rows), cache)
  {
    var k := ScanIndex(rows, r, rec);
    RowSends(rows[r], rec, cache);
    SentOfHas(rows, Scan(rows), cache, k);
  }

  /** A row not yet annotated, with a name the cache lacks, sends. */
  lemma RowSends(row: seq<Cell>, rec: CellRecord, cache: map<string, Response>)
    requires |ExtractProfessorName(rec.text)| >= 3 && !HasRatingCell(row)
    requires ExtractProfessorName(rec.text) !in cache
    ensures RowOutcome(row, rec, cache) == Sent(Pending(rec.row, rec.cell + 1, ExtractProfessorName(rec.text)))
  {
  }

  /** Where the record of a row is in the scan. */
  lemma ScanIndex(rows: seq<seq<Cell>>, r: nat, rec: CellRecord) returns (k: nat)
    requires r < |rows| && Candidate(rows[r], r) == Some(rec)
    ensures k < |Scan(rows)| && Scan(rows)[k] == rec && rec.row == r
  {
    ScanHas(rows, r, rec);
    k :| 0 <= k < |Scan(rows)| && Scan(rows)[k] == rec;
  }

  /** After a pass, the row of a record sends nothing in a later pass, with
      any cache. */
  lemma PassedRowSkipped(row: seq<Cell>, r: nat, rec: CellRecord, c1: map<string, Response>, c2: map<string, Response>)
    requires Candidate(row, r) == Some(rec)
    ensures RowOutcome(PassRow(row, r, c1), rec, c2).Skipped?
  {
    var name := ExtractProfessorName(rec.text);
    if !(|name| < 3 || HasRatingCell(row)) {
      assert PassRow(row, r, c1)[rec.cell + 1].RatingCell?;
    }
  }

  /** A second pass, with any cache, sends no lookup. */
  lemma SecondPassSendsNothing(rows: seq<seq<Cell>>, c1: map<string, Response>, c2: map<string, Response>)
    ensures SentOf(PassRows(rows, c1), Scan(PassRows(rows, c1)), c2) == []
  {
    var once := PassRows(rows, c1);
    var cells := Scan(once);
    ScanSound(once);
    forall k | 0 <= k < |cells| && cells[k].row < |once|
      ensures !RowOutcome(once[cells[k].row], cells[k], c2).Sent?
    {
      var r := cells[k].row;
      CandidateKept(rows[r], r, c1);
      PassedRowSkipped(rows[r], r, cells[k], c1, c2);
    }
    SentOfNone(once, cells, c2);
  }

  /** Processing the records found in table order annotates every row as a
      pass does. */
  lemma ProcessRecordsIsPass(rows: seq<seq<Cell>>, cache: map<string, Response>)
    ensures ProcessRecords(rows, Scan(rows), cache) == PassRows(rows, cache)
  {
    var cells := Scan(rows);
    ProcessRecordsPartial(rows, cells, |cells|, cache);
    assert cells[..|cells|] == cells;
    PartialEnd(ProcessRecords(rows, cells, cache), rows, cells, cache);
  }

  lemma {:induction false} ProcessRecordsPartial(rows0: seq<seq<Cell>>, cells: seq<CellRecord>, i: nat, cache: map<string, Response>)
    requires cells == Scan(rows0) && i <= |cells|
    ensures Partial(ProcessRecords(rows0, cells[..i], cache), rows0, cells, i, cache)
    decreases i
  {
    if i == 0 {
      PartialStart(rows0, cells, cache);
    } else {
      ProcessRecordsPartial(rows0, cells, i - 1, cache);
      var prev := ProcessRecords(rows0, cells[..i - 1], cache);
      RecordFacts(rows0, cells, i - 1);
      PartialStep(prev, rows0, cells, i - 1, cache);
      ProcessRecordsSnoc(rows0, cells, i - 1, cache);
    }
  }

  /** Processing one more record updates its row, if it lies inside. */
  lemma ProcessRecordsSnoc(rows: seq<seq<Cell>>, recs: seq<CellRecord>, i: nat, cache: map<string, Response>)
    requires i < |recs|
    ensures var prev := ProcessRecords(rows, recs[..i], cache);
      ProcessRecords(rows, recs[..i + 1], cache)
        == if recs[i].row < |prev| && recs[i].cell < |prev[recs[i].row]|
           then prev[recs[i].row := ProcessRow(prev[recs[i].row], recs[i], cache)]
           else prev
  {
    assert recs[..i + 1][..i] == recs[..i];
  }

  /** Before the `i`-th record is processed its row is still as found. */
  lemma RecordUntouched(rows0: seq<seq<Cell>>, cells: seq<CellRecord>, i: nat, cache: map<string, Response>)
    requires cells == Scan(rows0) && i < |cells|
    ensures cells[i].row < |rows0| && cells[i].cell < |rows0[cells[i].row]|
    ensures ProcessRecords(rows0, cells[..i], cache)[cells[i].row] == rows0[cells[i].row]
    ensures cells[i].row < Bound(cells, i + 1, |rows0|)
  {
    ProcessRecordsPartial(rows0, cells, i, cache);
    RecordFacts(rows0, cells, i);
  }

  /** The cell a pending lookup will fill shows the loading indicator. */
  ghost predicate Loads(rows: seq<seq<Cell>>, p: Pending) {
    p.row < |rows| && p.cell < |rows[p.row]| && rows[p.row][p.cell] == RatingCell(Loading)
  }

  /** Every lookup in `sent` is for a row before `bound`, for a name the
      cache does not hold, and its cell shows the loading indicator. */
  ghost predicate Pendings(rows: seq<seq<Cell>>, sent: seq<Pending>, bound: nat, cache: map<string, Response>) {
    forall k :: 0 <= k < |sent| ==> sent[k].row < bound && sent[k].name !in cache && Loads(rows, sent[k])
  }

  /** Replacing a row at or past the bound keeps the lookups before it
      pending, under any larger bound. */
  lemma PendingsKept(rows: seq<seq<Cell>>, sent: seq<Pending>, r: nat, row: seq<Cell>, bound: nat, cache: map<string, Response>)
    requires Pendings(rows, sent, r, cache) && r < |rows| && r < bound
    ensures Pendings(rows[r := row], sent, bound, cache)
  {
  }

  lemma PendingsAdd(rows: seq<seq<Cell>>, sent: seq<Pending>, bound: nat, cache: map<string, Response>, p: Pending)
    requires Pendings(rows, sent, bound, cache)
    requires p.row < bound && p.name !in cache && Loads(rows, p)
    ensures Pendings(rows, sent + [p], bound, cache)
  {
  }

  /** The body rows part-way through a pass: the rows before the `i`-th
      record's row are annotated, the others untouched. */
  ghost predicate Partial(rows: seq<seq<Cell>>, rows0: seq<seq<Cell>>, cells: seq<CellRecord>, i: nat, cache: map<string, Response>) {
    && i <= |cells|
    && |rows| == |rows0|
    && forall r {:trigger rows[r]} :: 0 <= r < |rows0| ==>
         rows[r] == (if r < Bound(cells, i, |rows0|) then PassRow(rows0[r], r, cache) else rows0[r])
  }

  /** What the scan guarantees about the `i`-th record: it lies inside the
      table, it is its row's record, and no row between it and the next
      record has one. */
  ghost predicate NextRecord(rows0: seq<seq<Cell>>, cells: seq<CellRecord>, i: nat) {
    && i < |cells|
    && cells[i].row < |rows0|
    && cells[i].cell < |rows0[cells[i].row]|
    && Candidate(rows0[cells[i].row], cells[i].row) == Some(cells[i])
    && cells[i].row < Bound(cells, i + 1, |rows0|) <= |rows0|
    && forall r :: cells[i].row < r < Bound(cells, i + 1, |rows0|) ==> Candidate(rows0[r], r).None?
  }

  lemma RecordFacts(rows0: seq<seq<Cell>>, cells: seq<CellRecord>, i: nat)
    requires cells == Scan(rows0) && i < |cells|
    ensures NextRecord(rows0, cells, i)
  {
    RecordSound(rows0, cells, i);
    RecordBefore(rows0, cells, i);
    NoCandidateInGap(rows0, cells, i + 1);
  }

  lemma RecordSound(rows0: seq<seq<Cell>>, cells: seq<CellRecord>, i: nat)
    requires cells == Scan(rows0) && i < |cells|
    ensures cells[i].row < |rows0| && Candidate(rows0[cells[i].row], cells[i].row) == Some(cells[i])
  {
    ScanSound(rows0);
  }

  lemma RecordBefore(rows0: seq<seq<Cell>>, cells: seq<CellRecord>, i: nat)
    requires cells == Scan(rows0) && i < |cells|
    ensures cells[i].row < Bound(cells, i + 1, |rows0|) <= |rows0|
  {
    ScanOrdered(rows0);
    if i + 1 < |cells| {
      assert cells[i].row < cells[i + 1].row;
    }
  }

  lemma PartialStart(rows0: seq<seq<Cell>>, cells: seq<CellRecord>, cache: map<string, Response>)
    requires cells == Scan(rows0)
    ensures Partial(rows0, rows0, cells, 0, cache)
  {
    NoCandidateInGap(rows0, cells, 0);
  }

  /** On the row of its record, a pass processes that record. */
  lemma PassRowOfRecord(row: seq<Cell>, rec: CellRecord, cache: map<string, Response>)
    requires Candidate(row, rec.row) == Some(rec)
    ensures PassRow(row, rec.row, cache) == ProcessRow(row, rec, cache)
  {
  }

  /** Processing the next record extends the annotated part up to the row of
      the record after it. */
  lemma PartialStep(rows: seq<seq<Cell>>, rows0: seq<seq<Cell>>, cells: seq<CellRecord>, i: nat, cache: map<string, Response>)
    requires Partial(rows, rows0, cells, i, cache) && NextRecord(rows0, cells, i)
    ensures rows[cells[i].row] == rows0[cells[i].row]
    ensures Partial(rows[cells[i].row := ProcessRow(rows0[cells[i].row], cells[i], cache)], rows0, cells, i + 1, cache)
  {
    var rec := cells[i];
    var b := Bound(cells, i + 1, |rows0|);
    PassRowOfRecord(rows0[rec.row], rec, cache);
    var rows' := rows[rec.row := ProcessRow(rows0[rec.row], rec, cache)];
    forall r | 0 <= r < |rows0|
      ensures rows'[r] == (if r < b then PassRow(rows0[r], r, cache) else rows0[r])
    {
      if rec.row < r < b {
        assert Candidate(rows0[r], r).None?;
      }
    }
  }

  lemma PartialEnd(rows: seq<seq<Cell>>, rows0: seq<seq<Cell>>, cells: seq<CellRecord>, cache: map<string, Response>)
    requires Partial(rows, rows0, cells, |cells|, cache)
    ensures rows == PassRows(rows0, cache)
  {
  }

  /** Where the `i`-th record's row is, or the end of the table. */
  function Bound(cells: seq<CellRecord>, i: nat, n: nat): nat {
    if i < |cells| then cells[i].row else n
  }

  /** A row strictly between the rows of records `i - 1` and `i` is the row
      of no record. */
  lemma GapRowsUnlisted(cells: seq<CellRecord>, i: nat, r: nat, n: nat)
    requires forall k, j :: 0 <= k < j < |cells| ==> cells[k].row < cells[j].row
    requires i <= |cells| && (i > 0 ==> cells[i - 1].row < r) && r < Bound(cells, i, n)
    ensures forall k :: 0 <= k < |cells| ==> cells[k].row != r
  {
    forall k | 0 <= k < |cells| ensures cells[k].row != r {
      if k + 1 < i {
        assert cells[k].row < cells[i - 1].row;
      } else if i < k {
        assert cells[i].row < cells[k].row;
      }
    }
  }

  /** Between two consecutive records, and before the first and after the
      last, no row is a candidate. */
  lemma NoCandidateInGap(rows: seq<seq<Cell>>, cells: seq<CellRecord>, i: nat)
    requires cells == Scan(rows) && i <= |cells|
    ensures forall r :: 0 <= r < |rows| && (i > 0 ==> cells[i - 1].row < r) && r < Bound(cells, i, |rows|) ==>
      Candidate(rows[r], r).None?
  {
    ScanOrdered(rows);
    ScanComplete(rows);
    forall r | 0 <= r < |rows| && (i > 0 ==> cells[i - 1].row < r) && r < Bound(cells, i, |rows|)
      ensures Candidate(rows[r], r).None?
    {
      GapRowsUnlisted(cells, i, r, |rows|);
    }
  }
}
