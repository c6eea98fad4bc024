/** The persistence collaborator, abstracted as a table of rows keyed by primary
    key. It offers the five queries the service uses: save (an upsert keyed by
    the row's id), findById, findByNome, findAll and deleteById. */
module Repository {
  import opened Entity

  datatype Option<+T> = None | Some(value: T)

  /** Every row is stored under its own id. */
  type Store = m: map<int, Cerveja> | forall k :: k in m ==> m[k].id == k
    witness map[]

  /** Some row of the table carries the name `nome`. */
  predicate HasNome(s: Store, nome: string)
  {
    exists k :: k in s && s[k].nome == nome
  }

  /** No two rows share a name. */
  predicate UniqueNames(s: Store)
  {
    forall j, k :: j in s && k in s && s[j].nome == s[k].nome ==> j == k
  }

  /** Every row's stock is within its capacity. */
  predicate AllWithinCapacity(s: Store)
  {
    forall k :: k in s ==> WithinCapacity(s[k])
  }

  /** `s'` differs from `s` at most at key `key`. */
  predicate AgreeOutside(s: Store, s': Store, key: int)
  {
    && s.Keys - {key} == s'.Keys - {key}
    && (forall k :: k in s && k != key ==> k in s' && s'[k] == s[k])
  }

  /** A set with no members is the empty set. */
  lemma EmptyByExtension(keys: set<int>)
    requires forall k :: k !in keys
    ensures keys == {}
  {
    var none: set<int> := {};
    assert forall k :: k in keys <==> k in none;
  }

  /** A non-empty set has a member. */
  lemma HasMember(keys: set<int>)
    requires keys != {}
    ensures exists k :: k in keys
  {
    if forall k :: k !in keys {
      EmptyByExtension(keys);
      assert false;
    }
  }

  /** A finite non-empty set of keys has a least element. */
  lemma {:induction false} LeastOf(keys: set<int>) returns (least: int)
    requires keys != {}
    ensures least in keys
    ensures forall k :: k in keys ==> least <= k
  {
    HasMember(keys);
    var x :| x in keys;
    var rest := keys - {x};
    if rest == {} {
      least := x;
      forall k | k in keys
        ensures least <= k
      {
        assert k !in rest;
      }
    } else {
      var m := LeastOf(rest);
      least := if x < m then x else m;
      forall k | k in keys
        ensures least <= k
      {
        if k != x {
          assert k in rest;
        }
      }
    }
  }

  function Least(keys: set<int>): (m: int)
    requires keys != {}
    ensures m in keys
    ensures forall k :: k in keys ==> m <= k
  {
    assert exists m :: m in keys && forall k :: k in keys ==> m <= k by {
      var least := LeastOf(keys);
    }
    var m :| m in keys && forall k :: k in keys ==> m <= k;
    m
  }

  /** The keys of a set in strictly ascending order. */
  function Ascending(keys: set<int>): (r: seq<int>)
    ensures |r| == |keys|
    ensures forall i :: 0 <= i < |r| ==> r[i] in keys
    ensures forall k :: k in keys ==> k in r
    ensures forall i, j :: 0 <= i < j < |r| ==> r[i] < r[j]
    decreases |keys|
  {
    if keys == {} then []
    else
      var m := Least(keys);
      [m] + Ascending(keys - {m})
  }

  /** The rows stored under `keys`, in the order of `keys`. */
  function RowsAt(s: Store, keys: seq<int>): (rows: seq<Cerveja>)
    requires forall i :: 0 <= i < |keys| ==> keys[i] in s
    ensures |rows| == |keys|
    ensures forall i :: 0 <= i < |rows| ==> rows[i] == s[keys[i]]
  {
    if keys == [] then [] else [s[keys[0]]] + RowsAt(s, keys[1..])
  }

  /** findAll: every row exactly once, in ascending id (the table's natural order). */
  function FindAll(s: Store): (rows: seq<Cerveja>)
    ensures |rows| == |s|
    ensures forall i :: 0 <= i < |rows| ==> rows[i].id in s && s[rows[i].id] == rows[i]
    ensures forall k :: k in s ==> s[k] in rows
    ensures forall i, j :: 0 <= i < j < |rows| ==> rows[i].id < rows[j].id
  {
    var keys := Ascending(s.Keys);
    var rows := RowsAt(s, keys);
    assert |rows| == |s| by {
      assert |s.Keys| == |s|;
    }
    assert forall i :: 0 <= i < |rows| ==> rows[i].id in s && s[rows[i].id] == rows[i] by {
      forall i | 0 <= i < |rows|
        ensures rows[i].id in s && s[rows[i].id] == rows[i]
      {
        assert rows[i] == s[keys[i]];
      }
    }
    assert forall k :: k in s ==> s[k] in rows by {
      forall k | k in s
        ensures s[k] in rows
      {
        var i :| 0 <= i < |keys| && keys[i] == k;
        assert rows[i] == s[k];
      }
    }
    assert forall i, j :: 0 <= i < j < |rows| ==> rows[i].id < rows[j].id by {
      forall i, j | 0 <= i < j < |rows|
        ensures rows[i].id < rows[j].id
      {
        assert rows[i] == s[keys[i]] && rows[j] == s[keys[j]];
      }
    }
    rows
  }

  /** findById: the row stored under `id`, if any. */
  function FindById(s: Store, id: int): (r: Option<Cerveja>)
    ensures r.Some? <==> id in s
    ensures r.Some? ==> r.value.id == id && s[id] == r.value
  {
    if id in s then Some(s[id]) else None
  }

  /** The position of the first row of `rows` named `nome`, or `|rows|` when
      no row carries that name. */
  function FirstNamedAt(rows: seq<Cerveja>, nome: string): (i: nat)
    ensures i <= |rows|
    ensures forall j :: 0 <= j < i ==> rows[j].nome != nome
    ensures i < |rows| ==> rows[i].nome == nome
  {
    if rows == [] then 0
    else if rows[0].nome == nome then 0
    else 1 + FirstNamedAt(rows[1..], nome)
  }

  /** A name absent from the listing is carried by no row. */
  lemma UnlistedNameIsAbsent(s: Store, nome: string)
    requires FirstNamedAt(FindAll(s), nome) == |FindAll(s)|
    ensures !HasNome(s, nome)
  {
    var rows := FindAll(s);
    forall k | k in s
      ensures s[k].nome != nome
    {
      var j :| 0 <= j < |rows| && rows[j] == s[k];
    }
  }

  /** In a listing of ascending ids, the first row carrying a name has an id no
      larger than any other row carrying it. */
  lemma FirstNamedHasLeastId(rows: seq<Cerveja>, nome: string, j: int)
    requires forall a, b :: 0 <= a < b < |rows| ==> rows[a].id < rows[b].id
    requires 0 <= j < |rows| && rows[j].nome == nome
    ensures FirstNamedAt(rows, nome) < |rows|
    ensures rows[FirstNamedAt(rows, nome)].id <= rows[j].id
  {
    var i := FirstNamedAt(rows, nome);
    assert i <= j;
    if i < j {
      assert rows[i].id < rows[j].id;
    }
  }

  /** Rows are listed in ascending id, so the first one carrying a name has the
      least id among the rows carrying it. */
  lemma FirstListedIsLeast(s: Store, nome: string, k: int)
    requires k in s && s[k].nome == nome
    ensures FirstNamedAt(FindAll(s), nome) < |FindAll(s)|
    ensures FindAll(s)[FirstNamedAt(FindAll(s), nome)].id <= k
  {
    var rows := FindAll(s);
    var j :| 0 <= j < |rows| && rows[j] == s[k];
    FirstNamedHasLeastId(rows, nome, j);
  }

  /** findByNome: a row whose name equals `nome` exactly, if there is one.
      Among several rows of one name the one with the least id is returned. */
  function FindByNome(s: Store, nome: string): (r: Option<Cerveja>)
    ensures r.None? <==> !HasNome(s, nome)
    ensures r.Some? ==> r.value.nome == nome && r.value.id in s && s[r.value.id] == r.value
    ensures r.Some? ==> forall k :: k in s && s[k].nome == nome ==> r.value.id <= k
  {
    var rows := FindAll(s);
    var i := FirstNamedAt(rows, nome);
    if i < |rows| then
      assert forall k :: k in s && s[k].nome == nome ==> rows[i].id <= k by {
        forall k | k in s && s[k].nome == nome
          ensures rows[i].id <= k
        {
          FirstListedIsLeast(s, nome, k);
        }
      }
      Some(rows[i])
    else
      UnlistedNameIsAbsent(s, nome);
      None
  }

  /** When names are unique, findByNome returns the one row of that name. */
  lemma FindByNomeUnique(s: Store, k: int)
    requires UniqueNames(s)
    requires k in s
    ensures FindByNome(s, s[k].nome) == Some(s[k])
  {
  }

  /** save: an upsert keyed by the row's own id. */
  function Save(s: Store, c: Cerveja): (s': Store)
    ensures s'.Keys == s.Keys + {c.id}
    ensures s'[c.id] == c
    ensures AgreeOutside(s, s', c.id)
  {
    s[c.id := c]
  }

  /** deleteById: drops the row stored under `id`, keeping all others. */
  function DeleteById(s: Store, id: int): (s': Store)
    ensures s'.Keys == s.Keys - {id}
    ensures AgreeOutside(s, s', id)
  {
    s - {id}
  }

  /** An id no row uses yet: one past the largest key, or 1 for an empty table. */
  function FreshId(s: Store): (id: int)
    ensures id !in s
    ensures forall k :: k in s ==> k < id
  {
    var keys := Ascending(s.Keys);
    if keys == [] then 1
    else
      var top := keys[|keys| - 1];
      assert forall k :: k in s ==> k <= top by {
        forall k | k in s
          ensures k <= top
        {
          var i :| 0 <= i < |keys| && keys[i] == k;
          if i < |keys| - 1 {
            assert keys[i] < keys[|keys| - 1];
          }
        }
      }
      top + 1
  }
}
