# Beer inventory service (estoque_cerveja), modelled in Dafny

The repository is a small Spring service that keeps a stock of beers. Each record
(`Cerveja`) has an `id`, a `nome`, a `marca`, a capacity `max`, a stock level
`quantidade` and a style `tipo`. All of the decision logic sits in `CervejaService`:

- `createCerveja` refuses a name that is already registered;
- `findByNome` fails when no record has the name;
- `listAll` returns every record;
- `deleteById` fails when the id is absent;
- `increment` adds to `quantidade` only when the sum stays within `max`.

The model treats the service as a state machine over an abstract table. Each
operation is a pure function from a table to a `Step(store, reply)`. The reply is
`Ok(value)` or one of the three business exceptions: `AlreadyRegistered`,
`NotFound` and `StockExceeded`. A failed step hands back the table it was given.
That turns "nothing is written before the exception" into a proved statement.

Files (one module each):

- `tipo.dfy` (`Enums`): the seven beer styles and their display labels.
- `cerveja.dfy` (`Entity`): the record. The transfer object and the entity have
  the same fields. The generated mapper copies them one by one, so one datatype
  stands for both and the mapper is the identity.
- `exceptions.dfy` (`Exceptions`): the three exceptions as values, and `Result`.
- `repository.dfy` (`Repository`): the JPA repository as a table
  `map<int, Cerveja>`. The subset type `Store` keeps every row under its own id.
  It provides `save` (an upsert keyed by the row's id), `findById`, `findByNome`,
  `findAll` and `deleteById`, plus the id allocated on insert.
- `service.dfy` (`Service`): the five operations and both private helpers,
  with lemmas on frame conditions, invariants and the increment guard.
- `machine.dfy` (`Machine`): arbitrary call sequences. Unique names are kept
  along every run. The capacity bound is kept along every run whose created
  records are within capacity.
- `overflow.dfy` (`Overflow`): the increment with Java's 32-bit `int`
  arithmetic, as written (see Findings).
- `scenario.dfy` (`Scenario`): the test builder's record run through every
  operation.

Three facts about the code that the model keeps as they are:

- The second style is `MALZBIER` with label "Malzbier" (Tipo.java:11).
- `createCerveja` checks only the name, so a record above its capacity is
  stored as given (`Machine.CreateDoesNotCheckCapacity`). The capacity bound
  is therefore proved only for runs whose creations respect it.
- `increment` does not check the sign of the amount. A negative amount lowers
  the stock, possibly below zero.

## Model

| member | source | states |
|---|---|---|
| `Enums.Descricao` | src/main/java/com/corinto/estoquecerveja/enums/Tipo.java:10-18 | each of the seven styles carries its label (Lager, Malzbier, Witbier, Weiss, Ale, IPA, Stout), and each label is carried by that style alone |
| `Enums.DescricaoInjective` | src/main/java/com/corinto/estoquecerveja/enums/Tipo.java:10-18 | corollary of the label table in `Enums.Descricao`: distinct styles carry distinct labels, so a label names one style |
| `Repository.FindAll` | src/main/java/com/corinto/estoquecerveja/repository/CervejaRepository.java:8 | findAll lists each stored row exactly once (as many rows as the table holds, each one stored, every stored row present, no row twice) |
| `Repository.FindById` | src/main/java/com/corinto/estoquecerveja/repository/CervejaRepository.java:8 | findById is present exactly when a row has that id, and then it is that row |
| `Repository.FindByNome` | src/main/java/com/corinto/estoquecerveja/repository/CervejaRepository.java:10 | findByNome is empty exactly when no row has the name; otherwise it is a stored row with exactly that name, and the one with the least id among such rows |
| `Repository.FindByNomeUnique` | src/main/java/com/corinto/estoquecerveja/repository/CervejaRepository.java:10 | when names are unique, findByNome of a row's name is that row |
| `Repository.Save` | src/main/java/com/corinto/estoquecerveja/repository/CervejaRepository.java:8 | save writes the row under its own id and keeps every other row |
| `Repository.DeleteById` | src/main/java/com/corinto/estoquecerveja/repository/CervejaRepository.java:8 | deleteById removes exactly that key and keeps every other row |
| `Repository.FreshId` | src/main/java/com/corinto/estoquecerveja/service/CervejaService.java:29 | the id a creation is stored under is used by no row and exceeds every used id |
| `Service.VerifyIfIsAlreadyRegistered` | src/main/java/com/corinto/estoquecerveja/service/CervejaService.java:51-56 | throws AlreadyRegistered(nome) exactly when some row already has the name |
| `Service.VerifyIfExists` | src/main/java/com/corinto/estoquecerveja/service/CervejaService.java:58-61 | returns the row exactly when the id is stored, else NotFound for that id |
| `Service.CreateCerveja` | src/main/java/com/corinto/estoquecerveja/service/CervejaService.java:26-31 | a duplicate name gives AlreadyRegistered with the table unchanged; otherwise the input is stored under a new id and returned with every other field (nome, quantidade, ...) as given |
| `Service.CreateKeepsNamesUnique` | src/main/java/com/corinto/estoquecerveja/service/CervejaService.java:26-29 | creating in a table with unique names leaves names unique |
| `Service.CreateTouchesOnlyNewRow` | src/main/java/com/corinto/estoquecerveja/service/CervejaService.java:28-30 | a successful creation adds one key and keeps every earlier row |
| `Service.FindByNome` | src/main/java/com/corinto/estoquecerveja/service/CervejaService.java:33-37 | never changes the table; fails with NotFound exactly when no row has the name; otherwise returns a stored row with that exact name |
| `Service.FindByNomeReturnsTheNamedRow` | src/main/java/com/corinto/estoquecerveja/service/CervejaService.java:33-37 | with unique names, findByNome of a row's name returns that row |
| `Service.ListAll` | src/main/java/com/corinto/estoquecerveja/service/CervejaService.java:39-44 | never fails or changes the table; the list has one entry per row, each entry is a stored row, and every stored row is listed; an empty table gives an empty list |
| `Service.DeleteById` | src/main/java/com/corinto/estoquecerveja/service/CervejaService.java:46-49 | an absent id gives NotFound with the table unchanged; otherwise exactly that key is removed and all other rows are kept |
| `Service.DeleteKeepsInvariants` | src/main/java/com/corinto/estoquecerveja/service/CervejaService.java:46-49 | deleting keeps names unique and keeps every row within capacity |
| `Service.Increment` | src/main/java/com/corinto/estoquecerveja/service/CervejaService.java:63-72 | an absent id gives NotFound and a sum above max gives StockExceeded, both with the table unchanged; otherwise the row's stock becomes stock + amount and only that row is rewritten |
| `Service.IncrementSucceedsIff` | src/main/java/com/corinto/estoquecerveja/service/CervejaService.java:65-71 | the increment succeeds if and only if the row exists and stock + amount <= max; every failure leaves the table as it was |
| `Service.IncrementTouchesOnlyItsRow` | src/main/java/com/corinto/estoquecerveja/service/CervejaService.java:63-69 | the keys are kept, every other row is kept, and the named row changes in quantidade alone |
| `Service.IncrementKeepsCapacity` | src/main/java/com/corinto/estoquecerveja/service/CervejaService.java:66-68 | after a successful increment the row is within capacity and is what was stored; a table within capacity stays within capacity |
| `Service.IncrementBoundaryIsInclusive` | src/main/java/com/corinto/estoquecerveja/service/CervejaService.java:66 | an increment that fills the row exactly to max is accepted |
| `Service.IncrementKeepsNamesUnique` | src/main/java/com/corinto/estoquecerveja/service/CervejaService.java:67-68 | increment never changes names, so names stay unique |
| `Machine.NextTouchesOnlyTarget` | src/main/java/com/corinto/estoquecerveja/service/CervejaService.java:26-72 | every call touches at most the row it names (the new id, the deleted id, the incremented id); the two queries touch nothing |
| `Machine.NextKeepsNamesUnique` | src/main/java/com/corinto/estoquecerveja/service/CervejaService.java:26-72 | any single call keeps names unique |
| `Machine.RunKeepsNamesUnique` | src/main/java/com/corinto/estoquecerveja/service/CervejaService.java:26-72 | any sequence of calls from a table with unique names leaves names unique |
| `Machine.NextKeepsCapacity` | src/main/java/com/corinto/estoquecerveja/service/CervejaService.java:26-72 | any single call keeps every row within capacity, provided a created record is |
| `Machine.RunKeepsCapacity` | src/main/java/com/corinto/estoquecerveja/service/CervejaService.java:26-72 | the capacity bound holds along any run whose created records respect it |
| `Machine.CreateDoesNotCheckCapacity` | src/main/java/com/corinto/estoquecerveja/service/CervejaService.java:26-31 | creation stores a record whose stock exceeds its capacity, breaking the capacity bound |
| `Overflow.Wrap` | src/main/java/com/corinto/estoquecerveja/service/CervejaService.java:65 | Java int addition yields the representable value congruent to the true sum modulo 2^32, and the true sum when it fits |
| `Overflow.IncrementAsWritten` | src/main/java/com/corinto/estoquecerveja/service/CervejaService.java:63-72 | with 32-bit arithmetic: an absent id gives NotFound; the increment succeeds exactly when the row exists and the wrapped sum is <= max, and otherwise gives StockExceeded; a failure leaves the table unchanged; a success rewrites only the stock of the named row, to a value congruent to stock + amount that does not exceed max; fields stay Java ints |
| `Overflow.AsWrittenAgreesWithoutOverflow` | src/main/java/com/corinto/estoquecerveja/service/CervejaService.java:65-67 | when stock + amount fits in 32 bits, the increment as written equals the intended one |
| `Overflow.OverflowSlipsPastGuard` | src/main/java/com/corinto/estoquecerveja/service/CervejaService.java:65-67 | for a row whose max is at least -1, a sum above INT_MAX passes the guard as written and stores a negative stock, where the intended increment refuses |
| `Overflow.UnderflowWrapsUpward` | src/main/java/com/corinto/estoquecerveja/service/CervejaService.java:65-67 | a sum below INT_MIN wraps upward into [0, INT_MAX]: stock -1 plus INT_MIN is refused for max 50 and accepted for max INT_MAX; stock INT_MIN plus INT_MIN is accepted with stock 0, where the unbounded increment stores -2^32 |
| `Overflow.BrahmaOverflow` | src/main/java/com/corinto/estoquecerveja/service/CervejaService.java:65-67 | the builder's record incremented by 2147483647 is accepted with stock -2147483639 as written, and refused as intended |
| `Scenario.IncrementByTen` | src/test/java/com/corinto/estoquecerveja/service/CervejaServiceTest.java:151-169 | the builder's record (10 of 50) incremented by 10 has stock 20 |
| `Scenario.IncrementByFortyReachesCapacity` | src/main/java/com/corinto/estoquecerveja/service/CervejaService.java:66 | the builder's record incremented by 40 has stock exactly 50 |
| `Scenario.IncrementsBeyondCapacityAreRefused` | src/test/java/com/corinto/estoquecerveja/service/CervejaServiceTest.java:171-191 | increments of 41, 45 and 80 on the builder's record give StockExceeded with the table unchanged |
| `Scenario.IncrementUnknownId` | src/test/java/com/corinto/estoquecerveja/service/CervejaServiceTest.java:193-200 | incrementing id 1 of an empty table gives NotFound |
| `Scenario.CreateThenIncrement` | src/test/java/com/corinto/estoquecerveja/service/CervejaServiceTest.java:49-65 | creating the builder's record (id 1) in an empty table stores it under id 1 and returns it unchanged, so the returned id equals the request's id; +10 then gives 20 and a further +45 is refused |
| `Scenario.CreateDuplicateIsRefused` | src/test/java/com/corinto/estoquecerveja/service/CervejaServiceTest.java:67-78 | creating "Brahma" again gives AlreadyRegistered("Brahma") with the table unchanged |
| `Scenario.FindBrahma` | src/test/java/com/corinto/estoquecerveja/service/CervejaServiceTest.java:80-105 | lookup of "Brahma" returns the record; on an empty table it is NotFound |
| `Scenario.ListBrahma` | src/test/java/com/corinto/estoquecerveja/service/CervejaServiceTest.java:107-132 | listing gives exactly the one record, or an empty list for an empty table |
| `Scenario.DeleteBrahma` | src/test/java/com/corinto/estoquecerveja/service/CervejaServiceTest.java:134-149 | deleting id 1 empties the table; deleting from an empty table gives NotFound |

## Left out

- HTTP controller: routing and status codes only. The `@Valid` checks on request bodies are not visible, so the model assumes nothing about amounts or stock on input.
- Exception messages and `@ResponseStatus` codes: each exception is a plain constructor that carries the name or id of its message.
- MapStruct mapper: field-by-field copying between two records with the same fields, modelled as the identity (one datatype).
- JPA repository internals: SQL, transactions and persistence failures are not modelled. The table is a map from id to row.
- Id generation: the entity's id mapping is not visible. The model discards the id in the request and stores a created record under one past the largest id in use (1 for an empty table). Two consequences follow. A request whose id is already in use does not overwrite that row; JPA's `save` would merge into it instead. And an id freed by deleting the top row is handed out again. `Service.CreateTouchesOnlyNewRow` and the Create case of `Machine.NextTouchesOnlyTarget` hold because the request's id is discarded and a fresh key is allocated.
- Repository.FindByNome: among several rows sharing a name, it returns the one with the least id. Spring Data instead raises an infrastructure error in that case. Such a table cannot arise from the service's own operations (`Machine.RunKeepsNamesUnique`).
- Repository.FindAll: rows come in ascending id. The real order is whatever the database returns, which is unspecified.
- Name matching is exact equality of character sequences. Database collation (such as case-insensitive comparison) is not modelled.
- Decrement: it appears only in commented-out tests and there is no service code for it.
- Concurrency: the read-check-write race between concurrent increments is outside this sequential model.
- Service.Increment: uses unbounded integers. This is the intended behaviour whenever the true sum stock + amount is at least INT_MIN. Java's 32-bit wrap-around of the sum is modelled separately as `Overflow.IncrementAsWritten` (see Findings). A sum below INT_MIN wraps upward by 2^32 to a value in [0, INT_MAX], which the guard then compares with max. Stock -1 with amount INT_MIN gives INT_MAX, refused when max < INT_MAX. Stock INT_MIN with amount INT_MIN gives 0, accepted, and 0 is stored (`Overflow.UnderflowWrapsUpward`). `Service.Increment` accepts every such sum and stores a stock that is not a Java `int`. Such an amount is outside any sensible restock, so the intended behaviour there is left open.

## Findings

| source | as written | input that shows it | evidently intended | confidence | as-written member | corrected member |
|---|---|---|---|---|---|---|
| src/main/java/com/corinto/estoquecerveja/service/CervejaService.java:65-67 | `quantityToIncrement + quantidade` is computed in 32-bit `int`. A sum above 2147483647 wraps to a negative value, passes the `<= max` guard, and is stored as the new stock. | builder record (stock 10, max 50), `increment(1, 2147483647)`: accepted, stock becomes -2147483639 | StockExceeded, table unchanged | medium; not executed (request validation of the amount is not visible) | `Overflow.OverflowSlipsPastGuard` | `Service.Increment` |
