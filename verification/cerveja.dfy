/** The persisted beer record. The transfer object has the same six fields and
    the generated mapper copies them one by one, so one datatype serves both. */
module Entity {
  import opened Enums

  datatype Cerveja = Cerveja(
    id: int,
    nome: string,
    marca: string,
    max: int,
    quantidade: int,
    tipo: Tipo)

  /** The stock level does not exceed the capacity of the record. */
  predicate WithinCapacity(c: Cerveja)
  {
    c.quantidade <= c.max
  }
}
