/** The service as a state machine over the table: any sequence of service calls,
    applied one after another, keeps the invariants the service enforces. */
module Machine {
  import opened Entity
  import Repository
  import Service

  type Store = Repository.Store

  /** One call of the service's public interface. */
  datatype Command =
    | Create(dto: Cerveja)
    | FindByNome(nome: string)
    | ListAll
    | DeleteById(id: int)
    | Increment(id: int, amount: int)

  /** The table after one call, whatever its reply. */
  function Next(s: Store, c: Command): Store
  {
    match c
    case Create(dto) => Service.CreateCerveja(s, dto).store
    case FindByNome(nome) => Service.FindByNome(s, nome).store
    case ListAll => Service.ListAll(s).store
    case DeleteById(id) => Service.DeleteById(s, id).store
    case Increment(id, amount) => Service.Increment(s, id, amount).store
  }

  /** The table after a sequence of calls. */
  function Run(s: Store, cs: seq<Command>): Store
    decreases |cs|
  {
    if cs == [] then s else Run(Next(s, cs[0]), cs[1..])
  }

  /** The one key a call may write: the allocated id for a creation, the named
      id for a deletion or an increment, none for the two queries. */
  function Target(s: Store, c: Command): Repository.Option<int>
  {
    match c
    case Create(_) => Repository.Some(Repository.FreshId(s))
    case FindByNome(_) => Repository.None
    case ListAll => Repository.None
    case DeleteById(id) => Repository.Some(id)
    case Increment(id, _) => Repository.Some(id)
  }

  /** Every call touches at most the row it names; the queries touch nothing. */
  lemma NextTouchesOnlyTarget(s: Store, c: Command)
    ensures Target(s, c).None? ==> Next(s, c) == s
    ensures Target(s, c).Some? ==> Repository.AgreeOutside(s, Next(s, c), Target(s, c).value)
  {
    match c
    case Create(dto) =>
      var r := Service.CreateCerveja(s, dto);
      if r.reply.Ok? {
        Service.CreateTouchesOnlyNewRow(s, dto);
        assert r.reply.value.id == Repository.FreshId(s);
      }
    case FindByNome(_) =>
    case ListAll =>
    case DeleteById(_) =>
    case Increment(id, amount) =>
      Service.IncrementTouchesOnlyItsRow(s, id, amount);
  }

  /** One call keeps names unique. */
  lemma NextKeepsNamesUnique(s: Store, c: Command)
    requires Repository.UniqueNames(s)
    ensures Repository.UniqueNames(Next(s, c))
  {
    match c
    case Create(dto) =>
      Service.CreateKeepsNamesUnique(s, dto);
    case FindByNome(_) =>
    case ListAll =>
    case DeleteById(id) =>
      Service.DeleteKeepsInvariants(s, id);
    case Increment(id, amount) =>
      Service.IncrementKeepsNamesUnique(s, id, amount);
  }

  /** Any sequence of calls from a table with unique names leaves unique names. */
  lemma {:induction false} RunKeepsNamesUnique(s: Store, cs: seq<Command>)
    requires Repository.UniqueNames(s)
    ensures Repository.UniqueNames(Run(s, cs))
    decreases |cs|
  {
    if cs != [] {
      NextKeepsNamesUnique(s, cs[0]);
      RunKeepsNamesUnique(Next(s, cs[0]), cs[1..]);
    }
  }

  /** Every record handed to a creation is within its own capacity. The service
      itself does not check this. */
  predicate CreatesWithinCapacity(cs: seq<Command>)
  {
    forall i :: 0 <= i < |cs| && cs[i].Create? ==> WithinCapacity(cs[i].dto)
  }

  /** One call keeps every row within capacity, provided a created record is. */
  lemma NextKeepsCapacity(s: Store, c: Command)
    requires Repository.AllWithinCapacity(s)
    requires c.Create? ==> WithinCapacity(c.dto)
    ensures Repository.AllWithinCapacity(Next(s, c))
  {
    match c
    case Create(dto) =>
    case FindByNome(_) =>
    case ListAll =>
    case DeleteById(id) =>
    case Increment(id, amount) =>
      Service.IncrementKeepsCapacity(s, id, amount);
  }

  /** The capacity invariant holds along any run whose creations respect it. */
  lemma {:induction false} RunKeepsCapacity(s: Store, cs: seq<Command>)
    requires Repository.AllWithinCapacity(s)
    requires CreatesWithinCapacity(cs)
    ensures Repository.AllWithinCapacity(Run(s, cs))
    decreases |cs|
  {
    if cs != [] {
      NextKeepsCapacity(s, cs[0]);
      assert CreatesWithinCapacity(cs[1..]) by {
        forall i | 0 <= i < |cs[1..]| && cs[1..][i].Create?
          ensures WithinCapacity(cs[1..][i].dto)
        {
          assert cs[1..][i] == cs[i + 1];
        }
      }
      RunKeepsCapacity(Next(s, cs[0]), cs[1..]);
    }
  }

  /** Creation stores a record above its capacity as it is: the capacity bound is
      kept by the increment guard alone, not by creation. */
  lemma CreateDoesNotCheckCapacity()
    ensures var dto := Cerveja(0, "Skol", "Ambev", 50, 60, Enums.Lager);
      var s' := Next(map[], Create(dto));
      Repository.AllWithinCapacity(map[]) && !Repository.AllWithinCapacity(s')
  {
    var dto := Cerveja(0, "Skol", "Ambev", 50, 60, Enums.Lager);
    var r := Service.CreateCerveja(map[], dto);
    assert r.reply.Ok?;
    assert r.store[r.reply.value.id] == dto.(id := r.reply.value.id);
  }
}
