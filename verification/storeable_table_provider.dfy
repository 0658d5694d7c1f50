/** The typed-row table provider (`StoreableTableProvider`): the generic
    registry of tables with declared column classes, lazy loading of tables
    found on disk, row construction, and a closed state in which every guarded
    operation is refused. */
module StoreableTableProvider {
  import opened Wrappers
  import opened Columns
  import opened ValidityChecker
  import G = GenericTableProvider

  /** What the provider keeps of a registered `StoreableTable`: its name, its
      column classes, and whether it has been closed. */
  datatype TableHandle = TableHandle(name: string, columnTypes: seq<JClass>, open: bool)

  /** The provider: the generic registry plus the `isClosed` flag. */
  datatype StoreableProvider = StoreableProvider(base: G.Provider<TableHandle>, closed: bool)

  /** The provider after an operation together with what it returned or threw. */
  datatype Step<R> = Step(provider: StoreableProvider, result: Result<R>)

  /** The constructor: the generic constructor, then not closed. */
  function NewStoreableProvider(root: Option<string>, disk: Option<Node>, autoCommit: bool): (r: Result<StoreableProvider>)
    ensures r.Ok? <==> root.Some? && DataBaseRootValid(disk)
    ensures r.Ok? ==> !r.value.closed && r.value.base.tables == map[] && r.value.base.root == root.value
  {
    match G.NewProvider(root, disk, autoCommit)
    case Err(e) => Err(e)
    case Ok(base) => Ok(StoreableProvider(base, false))
  }

  /** Every registered table is registered under its own name. */
  predicate NamesAgree(sp: StoreableProvider)
  {
    forall n :: n in sp.base.tables ==> sp.base.tables[n].name == n
  }

  /** `checkClosed()`. */
  function CheckClosed(sp: StoreableProvider): (r: Result<()>)
    ensures r.Err? <==> sp.closed
    ensures r.Err? ==> r.error == IllegalState
  {
    if sp.closed then Err(IllegalState) else Ok(())
  }

  /** The entry named `name` in a directory listing, if any. */
  function EntryNamed(entries: seq<Node>, name: string): (r: Option<Node>)
    ensures r.Some? <==> exists e :: e in entries && e.name == name
    ensures r.Some? ==> r.value in entries && r.value.name == name
  {
    if |entries| == 0 then None
    else if entries[0].name == name then Some(entries[0])
    else EntryNamed(entries[1..], name)
  }

  /** `loadTable(name)`, for a valid name that is not registered. `disk` is the
      database root as it is now on disk and `signature` is what reading the
      table's signature file yields; an error there also stands for a failure of
      the `StoreableTable` constructor the signature is passed to. A root that
      cannot be listed dereferences null; a malformed table directory or an
      unreadable signature fails the check, which `getTable` rethrows as a
      RuntimeException. */
  function LoadTable(sp: StoreableProvider, name: string, disk: Node, signature: Result<seq<JClass>>): (r: Step<Option<TableHandle>>)
    ensures r.result.Err? ==> r.result.error == Runtime && r.provider == sp
    ensures r.result == Ok(None) ==> r.provider == sp
    ensures r.result.Ok? && r.result.value.Some? ==>
              && EntryNamed(disk.children, name).Some?
              && StoreableTableRootValid(EntryNamed(disk.children, name).value)
              && signature.Ok?
              && r.result.value.value == TableHandle(name, signature.value, true)
              && r.provider == sp.(base := sp.base.(tables := sp.base.tables[name := r.result.value.value]))
    ensures disk.kind != Directory ==> r == Step(sp, Err(Runtime))
    ensures disk.kind == Directory && EntryNamed(disk.children, name).None? ==> r == Step(sp, Ok(None))
    ensures disk.kind == Directory && EntryNamed(disk.children, name).Some?
            && StoreableTableRootValid(EntryNamed(disk.children, name).value) && signature.Ok? ==>
              var table := TableHandle(name, signature.value, true);
              r == Step(sp.(base := sp.base.(tables := sp.base.tables[name := table])), Ok(Some(table)))
    ensures EntryNamed(disk.children, name).Some?
            && (!StoreableTableRootValid(EntryNamed(disk.children, name).value) || signature.Err?) ==>
              r == Step(sp, Err(Runtime))
  {
    if disk.kind != Directory then Step(sp, Err(Runtime))
    else match EntryNamed(disk.children, name)
      case None => Step(sp, Ok(None))
      case Some(tableDir) =>
        if !StoreableTableRootValid(tableDir) then Step(sp, Err(Runtime))
        else match signature
          case Err(_) => Step(sp, Err(Runtime))
          case Ok(columnTypes) =>
            var table := TableHandle(name, columnTypes, true);
            Step(sp.(base := sp.base.(tables := sp.base.tables[name := table])), Ok(Some(table)))
  }

  /** `getTable(name)`: a registered table, else a table loaded from disk and
      registered, else null. */
  function GetTable(sp: StoreableProvider, name: Option<string>, disk: Node, signature: Result<seq<JClass>>): (r: Step<Option<TableHandle>>)
    ensures sp.closed ==> r == Step(sp, Err(IllegalState))
    ensures !sp.closed && !TableNameValid(name) ==> r == Step(sp, Err(IllegalArgument))
    ensures !sp.closed && TableNameValid(name) && name.value in sp.base.tables ==>
              r == Step(sp, Ok(Some(sp.base.tables[name.value])))
    ensures !sp.closed && TableNameValid(name) && name.value !in sp.base.tables ==>
              r == LoadTable(sp, name.value, disk, signature)
    ensures r.result.Ok? && r.result.value.Some? ==>
              r.provider.base.tables == sp.base.tables[name.value := r.result.value.value]
    ensures r.result.Ok? && r.result.value.None? ==> r.provider == sp
    ensures r.provider.closed == sp.closed && r.provider.base.root == sp.base.root
    ensures r.result.Err? ==> r.provider == sp
    ensures NamesAgree(sp) ==> NamesAgree(r.provider)
  {
    if sp.closed then Step(sp, Err(IllegalState))
    else match G.GetTable(sp.base, name)
      case Err(e) => Step(sp, Err(e))
      case Ok(Some(table)) => Step(sp, Ok(Some(table)))
      case Ok(None) => LoadTable(sp, name.value, disk, signature)
  }

  /** `removeTable(name)`. */
  function RemoveTable(sp: StoreableProvider, name: Option<string>): (r: Step<()>)
    ensures sp.closed ==> r == Step(sp, Err(IllegalState))
    ensures !sp.closed ==>
              var g := G.RemoveTable(sp.base, name);
              r == Step(sp.(base := g.provider), g.result)
    ensures NamesAgree(sp) ==> NamesAgree(r.provider)
  {
    if sp.closed then Step(sp, Err(IllegalState))
    else
      var g := G.RemoveTable(sp.base, name);
      Step(sp.(base := g.provider), g.result)
  }

  /** `getRoot()`. */
  function GetRoot(sp: StoreableProvider): (r: Result<string>)
    ensures r.Err? <==> sp.closed
    ensures r.Ok? ==> r.value == sp.base.root
  {
    if sp.closed then Err(IllegalState) else Ok(sp.base.root)
  }

  /** The column classes `createTable` accepts: present, non-empty and each
      supported. */
  predicate ColumnsAccepted(columnTypes: Option<seq<JClass>>)
  {
    columnTypes.Some? && SignatureValid(columnTypes.value) && forall c :: c in columnTypes.value ==> ColumnTypeValid(c)
  }

  /** `createTable(name, columnTypes)`: the column classes are checked first,
      then `getTable` runs: its failure propagates, and a table it finds or
      loads makes the result null. Otherwise `instantiateTable` builds the
      table (`constructed` says whether the `StoreableTable` constructor
      succeeds; its failure is rethrown as a RuntimeException and nothing is
      registered), the table is registered and its signature written. A failed
      signature write is an I/O error, but the table stays registered. */
  function CreateTable(sp: StoreableProvider, name: Option<string>, columnTypes: Option<seq<JClass>>,
                       disk: Node, signature: Result<seq<JClass>>, constructed: bool, signatureWritten: bool): (r: Step<Option<TableHandle>>)
    ensures sp.closed ==> r == Step(sp, Err(IllegalState))
    ensures !sp.closed && (columnTypes.None? || !SignatureValid(columnTypes.value)) ==>
              r == Step(sp, Err(IllegalArgument))
    ensures !sp.closed && columnTypes.Some? && (exists c :: c in columnTypes.value && !ColumnTypeValid(c)) ==>
              r == Step(sp, Err(IllegalArgument))
    ensures r.result.Ok? && r.result.value.Some? ==>
              && TableNameValid(name) && name.value !in sp.base.tables
              && r.result.value.value == TableHandle(name.value, columnTypes.value, true)
              && r.provider == sp.(base := sp.base.(tables := sp.base.tables[name.value := r.result.value.value]))
    ensures !sp.closed && ColumnsAccepted(columnTypes) ==>
              var g := GetTable(sp, name, disk, signature);
              && (g.result.Err? ==> r == Step(sp, g.result))
              && (g.result.Ok? && g.result.value.Some? ==> r == Step(g.provider, Ok(None)))
    ensures !sp.closed && TableNameValid(name) && name.value in sp.base.tables && ColumnsAccepted(columnTypes) ==>
              r == Step(sp, Ok(None))
    ensures !sp.closed && ColumnsAccepted(columnTypes)
            && TableNameValid(name) && name.value !in sp.base.tables
            && disk.kind == Directory && EntryNamed(disk.children, name.value).None? ==>
              var table := TableHandle(name.value, columnTypes.value, true);
              && r.provider == (if constructed then sp.(base := sp.base.(tables := sp.base.tables[name.value := table])) else sp)
              && r.result == (if !constructed then Err(Runtime) else if signatureWritten then Ok(Some(table)) else Err(IO))
    ensures r.result == Err(IO) ==> constructed && !signatureWritten && name.Some? && name.value in r.provider.base.tables
    ensures r.provider.closed == sp.closed && sp.base.tables.Keys <= r.provider.base.tables.Keys
    ensures NamesAgree(sp) ==> NamesAgree(r.provider)
  {
    if sp.closed then Step(sp, Err(IllegalState))
    else if columnTypes.None? || !SignatureValid(columnTypes.value) then Step(sp, Err(IllegalArgument))
    else if exists c :: c in columnTypes.value && !ColumnTypeValid(c) then Step(sp, Err(IllegalArgument))
    else
      var existing := GetTable(sp, name, disk, signature);
      match existing.result
      case Err(e) => Step(existing.provider, Err(e))
      case Ok(Some(_)) => Step(existing.provider, Ok(None))
      case Ok(None) =>
        var table := TableHandle(name.value, columnTypes.value, true);
        var g := G.CreateTable(sp.base, name, if constructed then Ok(table) else Err(Runtime));
        if !constructed || signatureWritten then Step(sp.(base := g.provider), g.result)
        else Step(sp.(base := g.provider), Err(IO))
  }

  /** `createFor(table)`: a row of the table's column classes, every column null. */
  function CreateFor(sp: StoreableProvider, table: Option<TableHandle>): (r: Result<Row>)
    ensures sp.closed ==> r == Err(IllegalState)
    ensures !sp.closed && table.None? ==> r == Err(IllegalArgument)
    ensures r.Ok? ==>
              && r.value.columnTypes == table.value.columnTypes
              && |r.value.cells| == |table.value.columnTypes|
              && forall i :: 0 <= i < |r.value.cells| ==> r.value.cells[i].None?
    ensures r.Ok? <==> !sp.closed && table.Some?
  {
    if sp.closed then Err(IllegalState)
    else if table.None? then Err(IllegalArgument)
    else Ok(Row(table.value.columnTypes, seq(|table.value.columnTypes|, _ => None)))
  }

  /** `createFor(table, values)`: a row holding the given values, which must be
      exactly one per column, each fitting its column. */
  function CreateForValues(sp: StoreableProvider, table: Option<TableHandle>, values: Option<seq<Option<Value>>>): (r: Result<Row>)
    ensures sp.closed ==> r == Err(IllegalState)
    ensures !sp.closed && (table.None? || values.None?) ==> r == Err(IllegalArgument)
    ensures !sp.closed && table.Some? && values.Some? && |values.value| != |table.value.columnTypes| ==>
              r == Err(IndexOutOfBounds)
    ensures !sp.closed && table.Some? && values.Some? && |values.value| == |table.value.columnTypes|
            && (exists i :: 0 <= i < |values.value| && !CellFits(table.value.columnTypes[i], values.value[i])) ==>
              r == Err(ColumnFormat)
    ensures r.Ok? <==>
              && !sp.closed && table.Some? && values.Some? && |values.value| == |table.value.columnTypes|
              && forall i :: 0 <= i < |values.value| ==> CellFits(table.value.columnTypes[i], values.value[i])
    ensures r.Ok? ==> r.value == Row(table.value.columnTypes, values.value)
  {
    if sp.closed then Err(IllegalState)
    else if table.None? then Err(IllegalArgument)
    else if values.None? then Err(IllegalArgument)
    else if |values.value| > |table.value.columnTypes| then Err(IndexOutOfBounds)
    else if |values.value| < |table.value.columnTypes| then Err(IndexOutOfBounds)
    else
      match CreateFor(sp, table)
      case Err(e) => Err(e)
      case Ok(row) => SetColumns(row, values.value, 0)
  }

  /** The `setColumnAt` loop: columns `from` onwards take the given values; a
      value that does not fit its column throws `ColumnFormatException`. */
  function SetColumns(row: Row, values: seq<Option<Value>>, from: nat): (r: Result<Row>)
    requires |values| == |row.cells| == |row.columnTypes| && from <= |values|
    ensures r.Ok? <==> forall i :: from <= i < |values| ==> CellFits(row.columnTypes[i], values[i])
    ensures r.Err? ==> r.error == ColumnFormat
    ensures r.Ok? ==> r.value == row.(cells := row.cells[..from] + values[from..])
    decreases |values| - from
  {
    if from == |values| then
      assert row.cells[..from] + values[from..] == row.cells;
      Ok(row)
    else if !CellFits(row.columnTypes[from], values[from]) then Err(ColumnFormat)
    else SetColumns(row.(cells := row.cells[from := values[from]]), values, from + 1)
  }

  /** `closeTable(name)`: forget the table, whether or not it is registered. */
  function CloseTable(sp: StoreableProvider, name: string): (r: Step<()>)
    ensures sp.closed ==> r == Step(sp, Err(IllegalState))
    ensures !sp.closed ==> r.result == Ok(()) && r.provider.base.tables == sp.base.tables - {name}
    ensures r.provider.closed == sp.closed && r.provider.base.root == sp.base.root
    ensures NamesAgree(sp) ==> NamesAgree(r.provider)
  {
    if sp.closed then Step(sp, Err(IllegalState))
    else Step(sp.(base := sp.base.(tables := sp.base.tables - {name})), Ok(()))
  }

  /** A registered table after `StoreableTable.close()`. */
  function Closed(h: TableHandle): TableHandle
  {
    h.(open := false)
  }

  /** `close()`: a second close does nothing; the first closes every registered
      table, keeps them registered, and closes the provider. */
  function Close(sp: StoreableProvider): (r: StoreableProvider)
    ensures r.closed
    ensures sp.closed ==> r == sp
    ensures r.base.tables.Keys == sp.base.tables.Keys && r.base.root == sp.base.root
    ensures !sp.closed ==> forall n :: n in r.base.tables ==> r.base.tables[n] == Closed(sp.base.tables[n])
    ensures NamesAgree(sp) ==> NamesAgree(r)
  {
    if sp.closed then sp
    else StoreableProvider(sp.base.(tables := map n | n in sp.base.tables :: Closed(sp.base.tables[n])), true)
  }

  // ---------------------------------------------------------------------------
  // Properties across operations

  /** Closing twice is closing once. */
  lemma CloseIdempotent(sp: StoreableProvider)
    ensures Close(Close(sp)) == Close(sp)
  {
  }

  /** Once closed, every guarded operation is refused with a state error and
      changes nothing. */
  lemma ClosedRefusesEverything(sp: StoreableProvider, name: Option<string>, columnTypes: Option<seq<JClass>>,
                                disk: Node, signature: Result<seq<JClass>>, constructed: bool, written: bool,
                                table: Option<TableHandle>, values: Option<seq<Option<Value>>>, closing: string)
    ensures var c := Close(sp);
            && GetTable(c, name, disk, signature) == Step(c, Err(IllegalState))
            && CreateTable(c, name, columnTypes, disk, signature, constructed, written) == Step(c, Err(IllegalState))
            && RemoveTable(c, name) == Step(c, Err(IllegalState))
            && GetRoot(c) == Err(IllegalState)
            && CreateFor(c, table) == Err(IllegalState)
            && CreateForValues(c, table, values) == Err(IllegalState)
            && CloseTable(c, closing) == Step(c, Err(IllegalState))
  {
  }

  /** A table loaded from disk is registered, so the next `getTable` returns it
      whatever the disk now holds. */
  lemma LoadedTableIsCached(sp: StoreableProvider, name: Option<string>, disk: Node, signature: Result<seq<JClass>>,
                            disk': Node, signature': Result<seq<JClass>>)
    requires GetTable(sp, name, disk, signature).result.Ok?
    requires GetTable(sp, name, disk, signature).result.value.Some?
    ensures var s := GetTable(sp, name, disk, signature);
            GetTable(s.provider, name, disk', signature') == Step(s.provider, s.result)
  {
  }

  /** A table just created is returned by `getTable` with the declared column
      classes, without consulting the disk. */
  lemma CreatedTableIsFound(sp: StoreableProvider, name: string, columnTypes: seq<JClass>,
                            disk: Node, signature: Result<seq<JClass>>, disk': Node, signature': Result<seq<JClass>>)
    requires CreateTable(sp, Some(name), Some(columnTypes), disk, signature, true, true).result.Ok?
    requires CreateTable(sp, Some(name), Some(columnTypes), disk, signature, true, true).result.value.Some?
    ensures var c := CreateTable(sp, Some(name), Some(columnTypes), disk, signature, true, true).provider;
            GetTable(c, Some(name), disk', signature').result == Ok(Some(TableHandle(name, columnTypes, true)))
  {
  }

  /** A row of nulls built from values is the row `createFor(table)` builds, and
      a fresh row always passes the value-format check. */
  lemma NullValuesMakeEmptyRow(sp: StoreableProvider, table: TableHandle)
    ensures CreateForValues(sp, Some(table), Some(seq(|table.columnTypes|, _ => None))) == CreateFor(sp, Some(table))
    ensures CreateFor(sp, Some(table)).Ok? ==> ValueFormatValid(table.columnTypes, Some(CreateFor(sp, Some(table)).value))
  {
  }

  /** On an open provider, `createFor(table, values)` builds the row exactly
      when that row passes `checkValueFormat`. */
  lemma RowBuiltIffFormatValid(sp: StoreableProvider, table: TableHandle, values: seq<Option<Value>>)
    requires !sp.closed
    ensures CreateForValues(sp, Some(table), Some(values)).Ok? <==>
              ValueFormatValid(table.columnTypes, Some(Row(table.columnTypes, values)))
  {
  }

  /** For a valid name not registered yet, `getTable` returns a table exactly
      when the root lists a well-formed table directory of that name whose
      signature reads; it returns null exactly when no entry has that name. */
  lemma GetTableLoadsIff(sp: StoreableProvider, name: string, disk: Node, signature: Result<seq<JClass>>)
    requires !sp.closed && TableNameValid(Some(name)) && name !in sp.base.tables && disk.kind == Directory
    ensures var r := GetTable(sp, Some(name), disk, signature).result;
            && (r.Ok? && r.value.Some? <==>
                  && EntryNamed(disk.children, name).Some?
                  && StoreableTableRootValid(EntryNamed(disk.children, name).value)
                  && signature.Ok?)
            && (r == Ok(None) <==> EntryNamed(disk.children, name).None?)
  {
  }

  /** With valid column classes, a valid name and a written signature,
      `createTable` creates a table exactly when the name is neither registered
      nor listed on disk and the `StoreableTable` constructor succeeds. */
  lemma CreateTableIffFresh(sp: StoreableProvider, name: string, columnTypes: seq<JClass>,
                            disk: Node, signature: Result<seq<JClass>>, constructed: bool)
    requires !sp.closed && ColumnsAccepted(Some(columnTypes))
    requires TableNameValid(Some(name)) && disk.kind == Directory
    ensures var r := CreateTable(sp, Some(name), Some(columnTypes), disk, signature, constructed, true).result;
            r.Ok? && r.value.Some? <==> name !in sp.base.tables && EntryNamed(disk.children, name).None? && constructed
  {
  }
}
