/** The table registry (`GenericTableProvider`): a database root directory and
    the tables opened in it, by name. The type of table is a parameter; creating
    one is delegated to the concrete provider, whose outcome arrives as an
    argument here. */
module GenericTableProvider {
  import opened Wrappers
  import opened ValidityChecker

  /** A provider: the database root path, the registered tables, and whether its
      tables commit every change at once. */
  datatype Provider<T> = Provider(root: string, tables: map<string, T>, autoCommit: bool)

  /** The provider after an operation together with what it returned or threw. */
  datatype ProviderStep<T, R> = ProviderStep(provider: Provider<T>, result: Result<R>)

  /** The constructor: a null root is an argument error; a root that is not a
      directory of directories fails the validity check. `disk` is what the path
      denotes, `None` when nothing exists there. */
  function NewProvider<T>(root: Option<string>, disk: Option<Node>, autoCommit: bool): (r: Result<Provider<T>>)
    ensures root.None? ==> r == Err(IllegalArgument)
    ensures root.Some? && !DataBaseRootValid(disk) ==> r == Err(ValidityCheckFailed)
    ensures r.Ok? <==> root.Some? && DataBaseRootValid(disk)
    ensures r.Ok? ==> r.value.root == root.value && r.value.tables == map[] && r.value.autoCommit == autoCommit
  {
    if root.None? then Err(IllegalArgument)
    else if !DataBaseRootValid(disk) then Err(ValidityCheckFailed)
    else Ok(Provider(root.value, map[], autoCommit))
  }

  /** `getTable(name)`: the registered table, or null; an invalid name is an argument error. */
  function GetTable<T>(p: Provider<T>, name: Option<string>): (r: Result<Option<T>>)
    ensures !TableNameValid(name) ==> r == Err(IllegalArgument)
    ensures TableNameValid(name) ==> r.Ok? && (r.value.Some? <==> name.value in p.tables)
    ensures TableNameValid(name) && name.value in p.tables ==> r == Ok(Some(p.tables[name.value]))
  {
    if !TableNameValid(name) then Err(IllegalArgument) else Ok(Find(p.tables, name.value))
  }

  /** `createTable(name, args)`: null when the name is taken; otherwise the
      table `instantiateTable` builds (`made`, or the exception it throws) is
      registered under the name and returned. */
  function CreateTable<T>(p: Provider<T>, name: Option<string>, made: Result<T>): (r: ProviderStep<T, Option<T>>)
    ensures !TableNameValid(name) ==> r == ProviderStep(p, Err(IllegalArgument))
    ensures TableNameValid(name) && name.value in p.tables ==> r == ProviderStep(p, Ok(None))
    ensures TableNameValid(name) && name.value !in p.tables && made.Err? ==> r == ProviderStep(p, Err(made.error))
    ensures TableNameValid(name) && name.value !in p.tables && made.Ok? ==>
              && r.result == Ok(Some(made.value))
              && r.provider == p.(tables := p.tables[name.value := made.value])
    ensures r.provider.root == p.root && r.provider.autoCommit == p.autoCommit
    ensures p.tables.Keys <= r.provider.tables.Keys
  {
    if !TableNameValid(name) then ProviderStep(p, Err(IllegalArgument))
    else if name.value in p.tables then ProviderStep(p, Ok(None))
    else match made
      case Err(e) => ProviderStep(p, Err(e))
      case Ok(table) => ProviderStep(p.(tables := p.tables[name.value := table]), Ok(Some(table)))
  }

  /** `removeTable(name)`: unregister the table; an unknown name is a state error. */
  function RemoveTable<T>(p: Provider<T>, name: Option<string>): (r: ProviderStep<T, ()>)
    ensures !TableNameValid(name) ==> r == ProviderStep(p, Err(IllegalArgument))
    ensures TableNameValid(name) && name.value !in p.tables ==> r == ProviderStep(p, Err(IllegalState))
    ensures TableNameValid(name) && name.value in p.tables ==>
              r == ProviderStep(p.(tables := p.tables - {name.value}), Ok(()))
    ensures r.provider.tables.Keys <= p.tables.Keys
  {
    if !TableNameValid(name) then ProviderStep(p, Err(IllegalArgument))
    else if name.value !in p.tables then ProviderStep(p, Err(IllegalState))
    else ProviderStep(p.(tables := p.tables - {name.value}), Ok(()))
  }

  /** A created table is returned by `getTable`, and creating it again yields
      null and changes nothing. */
  lemma CreateThenGet<T>(p: Provider<T>, name: string, table: T)
    requires TableNameValid(Some(name)) && name !in p.tables
    ensures var p' := CreateTable(p, Some(name), Ok(table)).provider;
            && GetTable(p', Some(name)) == Ok(Some(table))
            && CreateTable(p', Some(name), Ok(table)) == ProviderStep(p', Ok(None))
  {
  }

  /** Removing undoes creating: the registry is as before, the name reads as
      absent, and removing again is a state error. */
  lemma CreateRemoveRoundTrip<T>(p: Provider<T>, name: string, table: T)
    requires TableNameValid(Some(name)) && name !in p.tables
    ensures var created := CreateTable(p, Some(name), Ok(table)).provider;
            var removed := RemoveTable(created, Some(name)).provider;
            && removed == p
            && GetTable(removed, Some(name)) == Ok(None)
            && RemoveTable(removed, Some(name)).result == Err(IllegalState)
  {
    var created := CreateTable(p, Some(name), Ok(table)).provider;
    assert created.tables - {name} == p.tables;
  }

  /** Operations on one name leave every other registered table alone. */
  lemma OtherTablesUntouched<T>(p: Provider<T>, name: Option<string>, made: Result<T>, other: string)
    requires name.None? || other != name.value
    ensures Find(CreateTable(p, name, made).provider.tables, other) == Find(p.tables, other)
    ensures Find(RemoveTable(p, name).provider.tables, other) == Find(p.tables, other)
  {
  }
}
