/** The record the service tests build (id 1, "Brahma", "Ambev", capacity 50,
    stock 10, Lager) run through each operation. */
module Scenario {
  import opened Entity
  import opened Enums
  import opened Exceptions
  import Repository
  import Service

  type Store = Repository.Store

  const Brahma: Cerveja := Cerveja(1, "Brahma", "Ambev", 50, 10, Lager)

  const BrahmaStore: Store := map[1 := Brahma]

  /** +10 gives a stock of 20, still below capacity. */
  lemma IncrementByTen()
    ensures Service.Increment(BrahmaStore, 1, 10)
      == Service.Step(map[1 := Brahma.(quantidade := 20)], Ok(Brahma.(quantidade := 20)))
  {
  }

  /** +40 fills the row exactly to capacity and is accepted. */
  lemma IncrementByFortyReachesCapacity()
    ensures Service.Increment(BrahmaStore, 1, 40).reply == Ok(Brahma.(quantidade := 50))
  {
  }

  /** +41, +45 and +80 would exceed the capacity of 50 and are refused. */
  lemma IncrementsBeyondCapacityAreRefused()
    ensures Service.Increment(BrahmaStore, 1, 41) == Service.Step(BrahmaStore, Err(StockExceeded(1, 41)))
    ensures Service.Increment(BrahmaStore, 1, 45) == Service.Step(BrahmaStore, Err(StockExceeded(1, 45)))
    ensures Service.Increment(BrahmaStore, 1, 80) == Service.Step(BrahmaStore, Err(StockExceeded(1, 80)))
  {
  }

  /** Incrementing id 1 of an empty table is NotFound. */
  lemma IncrementUnknownId()
    ensures Service.Increment(map[], 1, 10) == Service.Step(map[], Err(NotFound(ById(1))))
  {
  }

  /** Creating the record in an empty table stores it under id 1, the id it was
      built with, and returns it unchanged; +10 then gives 20, after which +45
      (65 > 50) is refused. */
  lemma CreateThenIncrement()
    ensures var created := Service.CreateCerveja(map[], Brahma);
      && created == Service.Step(BrahmaStore, Ok(Brahma))
      && var after := Service.Increment(created.store, 1, 10);
         && after.reply == Ok(Brahma.(quantidade := 20))
         && Service.Increment(after.store, 1, 45).reply == Err(StockExceeded(1, 45))
  {
    assert Repository.FreshId(map[]) == 1;
  }

  /** Creating the same name again is refused. */
  lemma CreateDuplicateIsRefused()
    ensures Service.CreateCerveja(BrahmaStore, Brahma)
      == Service.Step(BrahmaStore, Err(AlreadyRegistered("Brahma")))
  {
    assert BrahmaStore[1].nome == "Brahma";
  }

  /** Lookup by name finds the record, and fails on an empty table. */
  lemma FindBrahma()
    ensures Service.FindByNome(BrahmaStore, "Brahma") == Service.Step(BrahmaStore, Ok(Brahma))
    ensures Service.FindByNome(map[], "Brahma") == Service.Step(map[], Err(NotFound(ByNome("Brahma"))))
  {
    Service.FindByNomeReturnsTheNamedRow(BrahmaStore, 1);
  }

  /** Listing gives the one record, or an empty list for an empty table. */
  lemma ListBrahma()
    ensures Service.ListAll(BrahmaStore).reply == Ok([Brahma])
    ensures Service.ListAll(map[]).reply == Ok([])
  {
    var rows := Service.ListAll(BrahmaStore).reply.value;
    assert |BrahmaStore| == 1;
    assert rows[0].id in BrahmaStore && BrahmaStore[rows[0].id] == rows[0];
    assert rows[0] == Brahma;
    assert rows == [Brahma];
  }

  /** Deleting id 1 empties the table; deleting it again is NotFound. */
  lemma DeleteBrahma()
    ensures Service.DeleteById(BrahmaStore, 1) == Service.Step(map[], Ok(()))
    ensures Service.DeleteById(map[], 1) == Service.Step(map[], Err(NotFound(ById(1))))
  {
    assert BrahmaStore - {1} == map[];
  }
}
