/** The increment as the Java code computes it, with 32-bit `int` arithmetic.
    The sum is computed in 32 bits and wraps around, so a large amount can turn
    the sum negative and slip past the capacity guard. Service.Increment is the
    intended behaviour, over unbounded integers; the two agree whenever the sum
    fits in 32 bits. */
module Overflow {
  import opened Entity
  import opened Exceptions
  import Repository
  import Service

  type Store = Repository.Store

  const INT_MIN: int := -0x8000_0000
  const INT_MAX: int := 0x7fff_ffff
  const MODULUS: int := 0x1_0000_0000

  /** `x` is representable as a Java `int`. */
  predicate IsInt(x: int)
  {
    INT_MIN <= x <= INT_MAX
  }

  /** The value Java's `int` addition produces for the mathematical result `x`:
      the representable value congruent to `x` modulo 2^32. */
  function Wrap(x: int): (r: int)
    ensures IsInt(r)
    ensures (x - r) % MODULUS == 0
    ensures IsInt(x) ==> r == x
  {
    (x - INT_MIN) % MODULUS + INT_MIN
  }

  /** The `max` and `quantidade` fields of every row are Java `int`s. */
  predicate JavaInts(s: Store)
  {
    forall k :: k in s ==> IsInt(s[k].max) && IsInt(s[k].quantidade)
  }

  /** increment with 32-bit arithmetic in the guard and in the update. */
  function IncrementAsWritten(s: Store, id: int, amount: int): (r: Service.Step<Cerveja>)
    requires IsInt(amount)
    requires JavaInts(s)
    ensures JavaInts(r.store)
    ensures id !in s ==> r == Service.Step(s, Err(NotFound(ById(id))))
    ensures id in s && Wrap(s[id].quantidade + amount) > s[id].max ==>
      r == Service.Step(s, Err(StockExceeded(id, amount)))
    ensures r.reply.Ok? <==> id in s && Wrap(s[id].quantidade + amount) <= s[id].max
    ensures r.reply.Err? ==> r.store == s
    ensures r.reply.Ok? ==>
      && id in s
      && r.reply.value == s[id].(quantidade := r.reply.value.quantidade)
      && (s[id].quantidade + amount - r.reply.value.quantidade) % MODULUS == 0
      && r.reply.value.quantidade <= s[id].max
      && r.store == s[id := r.reply.value]
  {
    match Service.VerifyIfExists(s, id)
    case Err(e) => Service.Step(s, Err(e))
    case Ok(beer) =>
      var quantityAfterIncrement := Wrap(amount + beer.quantidade);
      if quantityAfterIncrement <= beer.max then
        var incremented := beer.(quantidade := Wrap(beer.quantidade + amount));
        Service.Step(Repository.Save(s, incremented), Ok(incremented))
      else
        Service.Step(s, Err(StockExceeded(id, amount)))
  }

  /** When the sum fits in 32 bits the Java code's increment is the intended one. */
  lemma AsWrittenAgreesWithoutOverflow(s: Store, id: int, amount: int)
    requires IsInt(amount)
    requires JavaInts(s)
    requires id in s ==> IsInt(s[id].quantidade + amount)
    ensures IncrementAsWritten(s, id, amount) == Service.Increment(s, id, amount)
  {
  }

  /** A sum above INT_MAX wraps to a negative value, which passes the guard of
      any row whose capacity is at least -1: the increment is accepted and the
      stored stock becomes negative, where the intended increment refuses. */
  lemma OverflowSlipsPastGuard(s: Store, id: int, amount: int)
    requires IsInt(amount)
    requires JavaInts(s)
    requires id in s
    requires s[id].quantidade + amount > INT_MAX
    requires s[id].max >= -1
    ensures IncrementAsWritten(s, id, amount).reply.Ok?
    ensures IncrementAsWritten(s, id, amount).reply.value.quantidade < 0
    ensures Service.Increment(s, id, amount).reply.Err?
  {
    var sum := s[id].quantidade + amount;
    assert Wrap(sum) == sum - MODULUS;
  }

  /** The builder's record (stock 10, capacity 50) incremented by INT_MAX: the
      Java code accepts and stores a stock of -2147483639; the intended increment
      refuses with StockExceeded. */
  lemma BrahmaOverflow()
    ensures var brahma := Cerveja(1, "Brahma", "Ambev", 50, 10, Enums.Lager);
      var s: Store := map[1 := brahma];
      && IncrementAsWritten(s, 1, INT_MAX).reply == Ok(brahma.(quantidade := -2147483639))
      && Service.Increment(s, 1, INT_MAX) == Service.Step(s, Err(StockExceeded(1, INT_MAX)))
  {
    var brahma := Cerveja(1, "Brahma", "Ambev", 50, 10, Enums.Lager);
    assert Wrap(INT_MAX + 10) == -2147483639;
  }

  /** A sum below INT_MIN wraps upward by 2^32 into [0, INT_MAX], which the guard
      then compares with max. Stock -1 plus INT_MIN gives INT_MAX: refused for
      max 50, accepted for max INT_MAX. Stock INT_MIN plus INT_MIN gives 0:
      accepted, and 0 is stored. */
  lemma UnderflowWrapsUpward()
    ensures var low := Cerveja(1, "Brahma", "Ambev", 50, -1, Enums.Lager);
      IncrementAsWritten(map[1 := low], 1, INT_MIN).reply == Err(StockExceeded(1, INT_MIN))
    ensures var low := Cerveja(1, "Brahma", "Ambev", INT_MAX, -1, Enums.Lager);
      IncrementAsWritten(map[1 := low], 1, INT_MIN).reply == Ok(low.(quantidade := INT_MAX))
    ensures var least := Cerveja(1, "Brahma", "Ambev", 50, INT_MIN, Enums.Lager);
      && IncrementAsWritten(map[1 := least], 1, INT_MIN).reply == Ok(least.(quantidade := 0))
      && Service.Increment(map[1 := least], 1, INT_MIN).reply == Ok(least.(quantidade := -MODULUS))
  {
    assert Wrap(-1 + INT_MIN) == INT_MAX;
    assert Wrap(INT_MIN + INT_MIN) == 0;
  }
}
