/** The statement text and the chunking of data_loader/loader.py.

    The database is not modelled: `create_target_table` is a connection
    object that records the statements it is given, and whether the
    database accepts one chunk's insert is a parameter. */
module Loader {
  import opened Base
  import opened Text

  /** One call the loader makes on a cursor or a connection. */
  datatype Statement = Execute(sql: string) | Commit

  /** `[schema].[table]`. */
  function TableFullName(schema: string, table: string): (r: string) {
    "[" + schema + "].[" + table + "]"
  }

  function DropQuery(fullName: string): (r: string) {
    "DROP TABLE IF EXISTS " + fullName + ";"
  }

  /** The definition of one output column: every column is `NVARCHAR(MAX)`. */
  function ColumnDef(col: string): (r: string) {
    "[" + col + "] NVARCHAR(MAX)"
  }

  function ColumnDefs(header: seq<string>): (r: seq<string>) {
    seq(|header|, k requires 0 <= k < |header| => ColumnDef(header[k]))
  }

  /** `",\n".join(...)` of the column definitions. */
  function ColumnsDef(header: seq<string>): (r: string) {
    Join(ColumnDefs(header), ",\n")
  }

  function CreateQuery(fullName: string, header: seq<string>): (r: string) {
    "CREATE TABLE " + fullName + " (\n" + ColumnsDef(header) + "\n);"
  }

  /** A connection to the target database, as far as the statements sent
      on it go. */
  class TargetConnection {
    var sent: seq<Statement>

    constructor()
      ensures sent == []
    {
      sent := [];
    }

    /** `create_target_table`: drop the table if it exists, create it with
        one `NVARCHAR(MAX)` column per header entry, then commit. */
    method CreateTargetTable(schema: string, table: string, header: seq<string>)
      modifies this
      ensures var full := TableFullName(schema, table);
        sent == old(sent) + [Execute(DropQuery(full)), Execute(CreateQuery(full, header)), Commit]
    {
      var full := TableFullName(schema, table);
      sent := sent + [Execute(DropQuery(full))];
      var create := CreateQuery(full, header);
      sent := sent + [Execute(create)];
      sent := sent + [Commit];
    }
  }

  /** Every column definition but the last ends with the comma that joins
      it to the next one. */
  function CommaTerminated(xs: seq<string>): (r: seq<string>) {
    seq(|xs|, k requires 0 <= k < |xs| => if k < |xs| - 1 then xs[k] + "," else xs[k])
  }

  lemma {:induction false} JoinCommaNewline(xs: seq<string>)
    ensures Join(xs, ",\n") == Join(CommaTerminated(xs), "\n")
    decreases |xs|
  {
    if |xs| >= 2 {
      var ys := CommaTerminated(xs);
      assert ys[1..] == CommaTerminated(xs[1..]);
      JoinCommaNewline(xs[1..]);
      assert xs[0] + ",\n" == (xs[0] + ",") + "\n";
    }
  }

  /** When no column name holds a line break, the column definition has
      exactly one line per header entry, in header order: `[col]
      NVARCHAR(MAX)` followed by a comma on every line but the last. */
  lemma ColumnLines(header: seq<string>)
    requires header != []
    requires forall k :: 0 <= k < |header| ==> '\n' !in header[k]
    ensures Split(ColumnsDef(header), "\n") == CommaTerminated(ColumnDefs(header))
    ensures |Split(ColumnsDef(header), "\n")| == |header|
  {
    var defs := ColumnDefs(header);
    JoinCommaNewline(defs);
    var lines := CommaTerminated(defs);
    forall k | 0 <= k < |lines| ensures '\n' !in lines[k] {
      assert '\n' !in ColumnDef(header[k]);
    }
    SplitJoin(lines, "\n");
  }

  // ---------------------------------------------------------------------
  // The insert statement

  function BracketedColumns(header: seq<string>): (r: seq<string>) {
    seq(|header|, k requires 0 <= k < |header| => "[" + header[k] + "]")
  }

  /** One `?` per header entry. */
  function Marks(n: nat): (r: seq<string>) {
    seq(n, _ => "?")
  }

  function Columns(header: seq<string>): (r: string) {
    Join(BracketedColumns(header), ", ")
  }

  function Placeholders(header: seq<string>): (r: string) {
    Join(Marks(|header|), ", ")
  }

  /** The statement `insert_chunk` runs for every row of its chunk. */
  function InsertQuery(fullName: string, header: seq<string>): (r: string) {
    "INSERT INTO " + fullName + " (" + Columns(header) + ") VALUES (" + Placeholders(header) + ")"
  }

  lemma {:induction false} CountAppend(a: string, b: string, c: char)
    ensures Count(a + b, c) == Count(a, c) + Count(b, c)
    decreases |a|
  {
    if a != [] {
      assert (a + b)[1..] == a[1..] + b;
      CountAppend(a[1..], b, c);
    } else {
      assert a + b == b;
    }
  }

  /** The placeholder list holds exactly one `?` per header entry. */
  lemma {:induction false} PlaceholderCount(n: nat)
    ensures Count(Join(Marks(n), ", "), '?') == n
    decreases n
  {
    if n >= 2 {
      assert Marks(n)[1..] == Marks(n - 1);
      PlaceholderCount(n - 1);
      CountAppend("?" + ", ", Join(Marks(n - 1), ", "), '?');
      CountAppend("?", ", ", '?');
    } else if n == 1 {
      assert Join(Marks(1), ", ") == "?";
    }
  }

  /** The insert statement's two lists line up: when no column name holds
      a comma, the column list splits back into the bracketed header in
      order, and the placeholder list into as many `?` as there are
      columns. */
  lemma InsertLists(header: seq<string>)
    requires header != []
    requires forall k :: 0 <= k < |header| ==> ',' !in header[k]
    ensures Split(Columns(header), ", ") == BracketedColumns(header)
    ensures Split(Placeholders(header), ", ") == Marks(|header|)
    ensures Count(Placeholders(header), '?') == |header|
  {
    var cols := BracketedColumns(header);
    forall k | 0 <= k < |cols| ensures ',' !in cols[k] {
      assert cols[k] == "[" + header[k] + "]";
    }
    SplitJoin(cols, ", ");
    var marks := Marks(|header|);
    forall k | 0 <= k < |marks| ensures ',' !in marks[k] {
      assert marks[k] == "?";
    }
    SplitJoin(marks, ", ");
    PlaceholderCount(|header|);
  }

  // ---------------------------------------------------------------------
  // Chunks

  function Min(a: int, b: int): (r: int) {
    if a < b then a else b
  }

  /** Python's `math.ceil(total / size)` for a non-zero `size`. */
  function ChunkCount(total: nat, size: int): (r: int)
    requires size != 0
  {
    if size > 0 then (total + size - 1) / size else -(total / -size)
  }

  /** Python's `rows[lo:hi]` for `0 <= lo`: both ends are clamped to the
      length and an empty range gives an empty slice. */
  function PySlice<T>(rows: seq<T>, lo: nat, hi: int): (r: seq<T>) {
    var a := Min(lo, |rows|);
    var b := if hi < a then a else Min(hi, |rows|);
    rows[a..b]
  }

  /** The chunk list of `load_data_to_target_multi`. A zero chunk size
      divides by zero; a negative one makes the chunk count negative and
      `range` empty. */
  function ChunkRows<T>(rows: seq<T>, size: int): (r: Result<seq<seq<T>>, string>)
    ensures r.Failure? <==> size == 0
  {
    if size == 0 then Failure("ZeroDivisionError")
    else
      var n := ChunkCount(|rows|, size);
      if n <= 0 then Success([])
      else Success(seq(n, i requires 0 <= i < n => PySlice(rows, i * size, (i + 1) * size)))
  }

  /** The arithmetic of `ceil`: all chunks before the last start inside
      the rows, and the last one ends at or after the end. */
  lemma CeilBounds(total: nat, size: nat)
    requires size > 0
    ensures var n := ChunkCount(total, size);
      n >= 0 && (total == 0 <==> n == 0) && (n > 0 ==> (n - 1) * size < total <= n * size)
  {
    var n := ChunkCount(total, size);
    var r := (total + size - 1) % size;
    assert total + size - 1 == n * size + r;
    if n > 0 {
      assert (n - 1) * size == n * size - size;
    }
  }

  /** Each chunk is the next `size` rows, the last one possibly shorter. */
  lemma ChunkAt<T>(rows: seq<T>, size: nat, i: nat) returns (lo: nat)
    requires size > 0 && i < ChunkCount(|rows|, size)
    ensures ChunkRows(rows, size).Success?
    ensures lo == i * size && lo < |rows|
    ensures var cs := ChunkRows(rows, size).value;
      i < |cs| && cs[i] == rows[lo..Min(lo + size, |rows|)]
  {
    var n := ChunkCount(|rows|, size);
    CeilBounds(|rows|, size);
    MulMonotone(i, n - 1, size);
    lo := i * size;
    assert (i + 1) * size == lo + size;
  }

  lemma MulMonotone(a: nat, b: nat, size: nat)
    requires a <= b
    ensures a * size <= b * size
  {
  }

  /** Concatenating the chunks restores the rows in order, and there are
      `ceil(len(rows) / size)` of them: every row is loaded once. */
  lemma ChunksCover<T>(rows: seq<T>, size: nat)
    requires size > 0
    ensures ChunkRows(rows, size).Success?
    ensures |ChunkRows(rows, size).value| == ChunkCount(|rows|, size)
    ensures Flatten(ChunkRows(rows, size).value) == rows
  {
    var cs := ChunkRows(rows, size).value;
    var n := ChunkCount(|rows|, size);
    CeilBounds(|rows|, size);
    if n > 0 {
      ChunksPrefix(rows, size, n);
      assert cs[..n] == cs;
    }
  }

  lemma {:induction false} ChunksPrefix<T>(rows: seq<T>, size: nat, i: nat)
    requires size > 0 && i <= ChunkCount(|rows|, size)
    ensures ChunkRows(rows, size).Success?
    ensures Flatten(ChunkRows(rows, size).value[..i]) == rows[..Min(i * size, |rows|)]
    decreases i
  {
    var cs := ChunkRows(rows, size).value;
    CeilBounds(|rows|, size);
    if i == 0 {
      assert cs[..0] == [];
    } else {
      ChunksPrefix(rows, size, i - 1);
      var lo := ChunkAt(rows, size, i - 1);
      assert i * size == lo + size;
      FlattenStep(cs, i);
      SliceConcat(rows, lo, Min(lo + size, |rows|));
    }
  }

  lemma FlattenStep<T>(ss: seq<seq<T>>, i: nat)
    requires 0 < i <= |ss|
    ensures Flatten(ss[..i]) == Flatten(ss[..i - 1]) + ss[i - 1]
  {
    assert ss[..i][..i - 1] == ss[..i - 1];
  }

  lemma SliceConcat<T>(s: seq<T>, a: nat, b: nat)
    requires a <= b <= |s|
    ensures s[..a] + s[a..b] == s[..b]
  {
  }

  /** Every chunk but the last holds exactly `size` rows, the last between
      one and `size`; no rows give no chunks. */
  lemma ChunkSizes<T>(rows: seq<T>, size: nat)
    requires size > 0
    ensures ChunkRows(rows, size).Success?
    ensures var cs := ChunkRows(rows, size).value;
      (rows == [] <==> cs == [])
      && (forall i :: 0 <= i < |cs| - 1 ==> |cs[i]| == size)
      && (cs != [] ==> 1 <= |cs[|cs| - 1]| <= size)
  {
    var cs := ChunkRows(rows, size).value;
    var n := ChunkCount(|rows|, size);
    CeilBounds(|rows|, size);
    forall i | 0 <= i < |cs| - 1 ensures |cs[i]| == size {
      var lo := ChunkAt(rows, size, i);
      MulMonotone(i + 1, n - 1, size);
      assert (i + 1) * size == lo + size;
    }
    if cs != [] {
      var lo := ChunkAt(rows, size, n - 1);
    }
  }

  /** A negative chunk size silently loads nothing. */
  lemma NegativeChunkSize<T>(rows: seq<T>, size: int)
    requires size < 0
    ensures ChunkRows(rows, size) == Success([])
  {
    assert ChunkCount(|rows|, size) <= 0;
  }

  // ---------------------------------------------------------------------
  // Loading the chunks

  /** The rows the target table receives: those of every chunk whose insert
      the database accepted. `insert_chunk` catches and logs its own
      errors, so a rejected chunk adds nothing and stops nothing. */
  function Inserted<T>(chunks: seq<seq<T>>, accepts: nat -> bool): (r: multiset<T>)
    decreases |chunks|
  {
    if chunks == [] then multiset{}
    else
      var n := |chunks| - 1;
      Inserted(chunks[..n], accepts) + (if accepts(n) then multiset(chunks[n]) else multiset{})
  }

  /** One `insert_chunk` call: the statement it runs once per row, and the
      rows of its chunk. */
  datatype Batch<T> = Batch(sql: string, rows: seq<T>)

  /** One `insert_chunk` call per chunk, in chunk order, all with the same
      statement. */
  function InsertBatches<T>(fullName: string, header: seq<string>, chunks: seq<seq<T>>): (r: seq<Batch<T>>)
    ensures |r| == |chunks|
  {
    seq(|chunks|, k requires 0 <= k < |chunks| => Batch(InsertQuery(fullName, header), chunks[k]))
  }

  /** What loading does: the insert calls submitted to the pool, and the
      rows the target table ends up with. */
  datatype Load<T> = Load(batches: seq<Batch<T>>, inserted: multiset<T>)

  /** `load_data_to_target_multi`: chunk the rows and submit one insert
      per chunk with the same statement. Only a zero chunk size escapes as
      an error. */
  function LoadDataToTargetMulti<T>(schema: string, table: string, header: seq<string>, rows: seq<T>,
                                    size: int, accepts: nat -> bool): (r: Result<Load<T>, string>)
    ensures r.Failure? <==> size == 0
  {
    match ChunkRows(rows, size)
    case Failure(e) => Failure(e)
    case Success(chunks) =>
      Success(Load(InsertBatches(TableFullName(schema, table), header, chunks), Inserted(chunks, accepts)))
  }

  /** Every row is submitted once, in order, and every batch runs the
      insert statement for the target table and header. */
  lemma LoadBatches<T>(schema: string, table: string, header: seq<string>, rows: seq<T>, size: nat, accepts: nat -> bool)
    requires size > 0
    ensures LoadDataToTargetMulti(schema, table, header, rows, size, accepts).Success?
    ensures var bs := LoadDataToTargetMulti(schema, table, header, rows, size, accepts).value.batches;
      |bs| == ChunkCount(|rows|, size)
      && (forall k :: 0 <= k < |bs| ==> bs[k].sql == InsertQuery(TableFullName(schema, table), header))
      && Flatten(BatchRows(bs)) == rows
  {
    ChunksCover(rows, size);
    var chunks := ChunkRows(rows, size).value;
    var bs := InsertBatches(TableFullName(schema, table), header, chunks);
    assert BatchRows(bs) == chunks;
  }

  function BatchRows<T>(bs: seq<Batch<T>>): (r: seq<seq<T>>)
    ensures |r| == |bs|
  {
    seq(|bs|, k requires 0 <= k < |bs| => bs[k].rows)
  }

  /** Each chunk's rows reach the table exactly when its own insert is
      accepted, whatever happens to the other chunks. */
  lemma {:induction false} InsertedChunk<T>(chunks: seq<seq<T>>, accepts: nat -> bool, k: nat)
    requires k < |chunks| && accepts(k)
    ensures multiset(chunks[k]) <= Inserted(chunks, accepts)
    decreases |chunks|
  {
    var n := |chunks| - 1;
    if k < n {
      assert chunks[..n][k] == chunks[k];
      InsertedChunk(chunks[..n], accepts, k);
    }
  }

  lemma {:induction false} InsertedAll<T>(chunks: seq<seq<T>>, accepts: nat -> bool)
    requires forall k :: 0 <= k < |chunks| ==> accepts(k)
    ensures Inserted(chunks, accepts) == multiset(Flatten(chunks))
    decreases |chunks|
  {
    if chunks != [] {
      var n := |chunks| - 1;
      InsertedAll(chunks[..n], accepts);
    }
  }

  lemma {:induction false} InsertedWithin<T>(chunks: seq<seq<T>>, accepts: nat -> bool)
    ensures Inserted(chunks, accepts) <= multiset(Flatten(chunks))
    decreases |chunks|
  {
    if chunks != [] {
      var n := |chunks| - 1;
      InsertedWithin(chunks[..n], accepts);
    }
  }

  /** With a positive chunk size the table receives only rows that were
      given to it; when every insert is accepted, it receives all of them,
      each as often as it occurs. */
  lemma LoadedRows<T>(schema: string, table: string, header: seq<string>, rows: seq<T>, size: nat, accepts: nat -> bool)
    requires size > 0
    ensures LoadDataToTargetMulti(schema, table, header, rows, size, accepts).Success?
    ensures LoadDataToTargetMulti(schema, table, header, rows, size, accepts).value.inserted <= multiset(rows)
    ensures (forall k :: 0 <= k < ChunkCount(|rows|, size) ==> accepts(k))
      ==> LoadDataToTargetMulti(schema, table, header, rows, size, accepts).value.inserted == multiset(rows)
  {
    ChunksCover(rows, size);
    var chunks := ChunkRows(rows, size).value;
    InsertedWithin(chunks, accepts);
    if forall k :: 0 <= k < ChunkCount(|rows|, size) ==> accepts(k) {
      InsertedAll(chunks, accepts);
    }
  }
}
