/** The inventory service: the only component with decision logic. Each public
    operation is a pure transition from the current table to the next table
    together with the reply (the returned value or the exception thrown).
    A failed operation hands back the table it was given: nothing is written
    before an exception is thrown. */
module Service {
  import opened Entity
  import opened Exceptions
  import Repository

  type Store = Repository.Store

  /** The table after an operation, and the operation's reply. */
  datatype Step<+T> = Step(store: Store, reply: Result<T>)

  /** Refuses a name some row already carries. */
  function VerifyIfIsAlreadyRegistered(s: Store, nome: string): (r: Result<()>)
    ensures r.Err? <==> Repository.HasNome(s, nome)
    ensures r.Err? ==> r.error == AlreadyRegistered(nome)
  {
    match Repository.FindByNome(s, nome)
    case Some(_) => Err(AlreadyRegistered(nome))
    case None => Ok(())
  }

  /** The row stored under `id`, or NotFound naming that id. */
  function VerifyIfExists(s: Store, id: int): (r: Result<Cerveja>)
    ensures r.Ok? <==> id in s
    ensures r.Ok? ==> r.value.id == id && r.value == s[id]
    ensures r.Err? ==> r.error == NotFound(ById(id))
  {
    match Repository.FindById(s, id)
    case Some(c) => Ok(c)
    case None => Err(NotFound(ById(id)))
  }

  /** createCerveja: refuses a duplicate name; otherwise stores the record under
      a freshly allocated id and returns what was stored. */
  function CreateCerveja(s: Store, dto: Cerveja): (r: Step<Cerveja>)
    ensures Repository.HasNome(s, dto.nome) ==>
      r == Step(s, Err(AlreadyRegistered(dto.nome)))
    ensures !Repository.HasNome(s, dto.nome) ==>
      && r.reply.Ok?
      && r.reply.value == dto.(id := r.reply.value.id)
      && r.reply.value.id !in s
      && r.store == s[r.reply.value.id := r.reply.value]
  {
    match VerifyIfIsAlreadyRegistered(s, dto.nome)
    case Err(e) => Step(s, Err(e))
    case Ok(_) =>
      var cerveja := dto.(id := Repository.FreshId(s));
      Step(Repository.Save(s, cerveja), Ok(cerveja))
  }

  /** findByNome: the row whose name equals `nome`, or NotFound naming it. */
  function FindByNome(s: Store, nome: string): (r: Step<Cerveja>)
    ensures r.store == s
    ensures r.reply.Err? <==> !Repository.HasNome(s, nome)
    ensures r.reply.Err? ==> r.reply.error == NotFound(ByNome(nome))
    ensures r.reply.Ok? ==>
      var c := r.reply.value;
      c.nome == nome && c.id in s && s[c.id] == c
  {
    match Repository.FindByNome(s, nome)
    case Some(c) => Step(s, Ok(c))
    case None => Step(s, Err(NotFound(ByNome(nome))))
  }

  /** listAll: every stored row exactly once; an empty table gives an empty list. */
  function ListAll(s: Store): (r: Step<seq<Cerveja>>)
    ensures r.store == s
    ensures r.reply.Ok?
    ensures |r.reply.value| == |s|
    ensures forall i :: 0 <= i < |r.reply.value| ==>
      var c := r.reply.value[i];
      c.id in s && s[c.id] == c
    ensures forall k :: k in s ==> s[k] in r.reply.value
    ensures forall i, j :: 0 <= i < j < |r.reply.value| ==>
      r.reply.value[i] != r.reply.value[j]
  {
    Step(s, Ok(Repository.FindAll(s)))
  }

  /** deleteById: NotFound when no row has that id; otherwise exactly that row
      is removed. */
  function DeleteById(s: Store, id: int): (r: Step<()>)
    ensures id !in s ==> r == Step(s, Err(NotFound(ById(id))))
    ensures id in s ==>
      && r.reply == Ok(())
      && r.store.Keys == s.Keys - {id}
      && forall k :: k in r.store ==> r.store[k] == s[k]
  {
    match VerifyIfExists(s, id)
    case Err(e) => Step(s, Err(e))
    case Ok(_) => Step(Repository.DeleteById(s, id), Ok(()))
  }

  /** increment: adds `amount` to the stock of row `id` when the sum stays within
      the row's capacity (the bound is inclusive). Otherwise the reply is
      NotFound or StockExceeded and the table is untouched. Integers here are
      unbounded; the 32-bit behaviour of the Java code is in module Overflow. */
  function Increment(s: Store, id: int, amount: int): (r: Step<Cerveja>)
    ensures id !in s ==> r == Step(s, Err(NotFound(ById(id))))
    ensures id in s && s[id].quantidade + amount > s[id].max ==>
      r == Step(s, Err(StockExceeded(id, amount)))
    ensures id in s && s[id].quantidade + amount <= s[id].max ==>
      && r.reply == Ok(s[id].(quantidade := s[id].quantidade + amount))
      && r.store == s[id := r.reply.value]
  {
    match VerifyIfExists(s, id)
    case Err(e) => Step(s, Err(e))
    case Ok(beer) =>
      var quantityAfterIncrement := amount + beer.quantidade;
      if quantityAfterIncrement <= beer.max then
        var incremented := beer.(quantidade := beer.quantidade + amount);
        Step(Repository.Save(s, incremented), Ok(incremented))
      else
        Step(s, Err(StockExceeded(id, amount)))
  }

  // ---------------------------------------------------------------------------
  // Properties relating the operations to the table invariants
  // ---------------------------------------------------------------------------

  /** Creating keeps names unique: the only new row carries a name no row had. */
  lemma CreateKeepsNamesUnique(s: Store, dto: Cerveja)
    requires Repository.UniqueNames(s)
    ensures Repository.UniqueNames(CreateCerveja(s, dto).store)
  {
  }

  /** Creation touches only the freshly allocated key; every earlier row is kept. */
  lemma CreateTouchesOnlyNewRow(s: Store, dto: Cerveja)
    ensures var r := CreateCerveja(s, dto);
      r.reply.Ok? ==> Repository.AgreeOutside(s, r.store, r.reply.value.id) && s.Keys < r.store.Keys
  {
  }

  /** With unique names, findByNome returns the one row carrying that name. */
  lemma FindByNomeReturnsTheNamedRow(s: Store, k: int)
    requires Repository.UniqueNames(s)
    requires k in s
    ensures FindByNome(s, s[k].nome) == Step(s, Ok(s[k]))
  {
    Repository.FindByNomeUnique(s, k);
  }

  /** Deleting never introduces a row, so it keeps both table invariants. */
  lemma DeleteKeepsInvariants(s: Store, id: int)
    ensures Repository.UniqueNames(s) ==> Repository.UniqueNames(DeleteById(s, id).store)
    ensures Repository.AllWithinCapacity(s) ==>
      Repository.AllWithinCapacity(DeleteById(s, id).store)
  {
  }

  /** The increment succeeds exactly when the row exists and the sum stays
      within capacity; on failure the table is returned as it was. */
  lemma IncrementSucceedsIff(s: Store, id: int, amount: int)
    ensures Increment(s, id, amount).reply.Ok? <==>
      id in s && s[id].quantidade + amount <= s[id].max
    ensures Increment(s, id, amount).reply.Err? ==> Increment(s, id, amount).store == s
  {
  }

  /** The increment touches only the stock of row `id`: the keys are kept, every
      other row is kept, and the row itself changes in `quantidade` alone. */
  lemma IncrementTouchesOnlyItsRow(s: Store, id: int, amount: int)
    ensures var s' := Increment(s, id, amount).store;
      && s'.Keys == s.Keys
      && Repository.AgreeOutside(s, s', id)
      && (id in s ==> s'[id] == s[id].(quantidade := s'[id].quantidade))
  {
  }

  /** A successful increment leaves the row within capacity, whatever its stock
      was before; so the capacity invariant of the table is preserved. */
  lemma IncrementKeepsCapacity(s: Store, id: int, amount: int)
    ensures var r := Increment(s, id, amount);
      r.reply.Ok? ==> WithinCapacity(r.reply.value) && r.store[id] == r.reply.value
    ensures Repository.AllWithinCapacity(s) ==>
      Repository.AllWithinCapacity(Increment(s, id, amount).store)
  {
  }

  /** Filling a row exactly to capacity is accepted. */
  lemma IncrementBoundaryIsInclusive(s: Store, id: int)
    requires id in s
    ensures Increment(s, id, s[id].max - s[id].quantidade).reply
      == Ok(s[id].(quantidade := s[id].max))
  {
  }

  /** Names never change under increment, so uniqueness is kept. */
  lemma IncrementKeepsNamesUnique(s: Store, id: int, amount: int)
    requires Repository.UniqueNames(s)
    ensures Repository.UniqueNames(Increment(s, id, amount).store)
  {
  }
}
